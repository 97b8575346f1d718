/**
  The few JavaScript value and string semantics the server code relies on:
  `typeof x === "string"`, truthiness of strings, `startsWith`, `endsWith`
  and `String.prototype.trim`.
*/
module Js {

  /** A JavaScript value as far as `typeof v === "string"` can tell: a string,
      or anything else (`undefined`, `null`, a number, an object, ...). */
  datatype JsValue = JsString(s: string) | NonString

  /** `typeof v === "string" && v` is truthy: a non-empty string. */
  predicate IsNonEmptyString(v: JsValue) {
    v.JsString? && v.s != ""
  }

  predicate StartsWith(s: string, prefix: string) {
    |prefix| <= |s| && s[..|prefix|] == prefix
  }

  predicate EndsWithSlash(s: string) {
    |s| > 0 && s[|s| - 1] == '/'
  }

  /** The characters `String.prototype.trim` removes: the ECMAScript
      WhiteSpace set (tab, vertical tab, form feed, space, no-break space,
      zero-width no-break space and the Unicode "Zs" space separators) and
      the LineTerminator set (line feed, carriage return, line and paragraph
      separators). */
  predicate IsTrimmable(c: char) {
    || c == '\t' || c == '\U{000B}' || c == '\U{000C}' || c == ' '
    || c == '\U{00A0}' || c == '\U{FEFF}'
    || c == '\U{1680}' || ('\U{2000}' <= c <= '\U{200A}')
    || c == '\U{202F}' || c == '\U{205F}' || c == '\U{3000}'
    || c == '\n' || c == '\r' || c == '\U{2028}' || c == '\U{2029}'
  }

  predicate AllTrimmable(s: string) {
    forall k :: 0 <= k < |s| ==> IsTrimmable(s[k])
  }

  /** Every character of `s[i..j]` is trimmable. */
  predicate TrimmableBetween(s: string, i: nat, j: nat)
    requires i <= j <= |s|
  {
    forall k :: i <= k < j ==> IsTrimmable(s[k])
  }

  /** A trimmable stretch of `h[p..]` is a trimmable stretch of `h`. */
  lemma TrimmableBetweenSuffix(h: string, p: nat, i: nat, j: nat)
    requires p <= |h| && i <= j <= |h| - p
    requires TrimmableBetween(h[p..], i, j)
    ensures TrimmableBetween(h, p + i, p + j)
  {
    forall k | p + i <= k < p + j ensures IsTrimmable(h[k]) {
      assert h[k] == h[p..][k - p];
    }
  }

  /** Neither end of `s` is trimmable. */
  predicate IsTrimmed(s: string) {
    s == [] || (!IsTrimmable(s[0]) && !IsTrimmable(s[|s| - 1]))
  }

  /** Where `s.trim()` starts cutting from the front, searching from `i`:
      the first position at or after `i` that holds no trimmable character. */
  function SkipForward(s: string, i: nat): (n: nat)
    requires i <= |s|
    ensures i <= n <= |s|
    ensures TrimmableBetween(s, i, n)
    ensures n == |s| || !IsTrimmable(s[n])
    decreases |s| - i
  {
    if i < |s| && IsTrimmable(s[i]) then SkipForward(s, i + 1) else i
  }

  /** Where `s.trim()` stops keeping characters at the back, searching down
      from `j` but not below `lo`. */
  function SkipBackward(s: string, lo: nat, j: nat): (n: nat)
    requires lo <= j <= |s|
    ensures lo <= n <= j
    ensures TrimmableBetween(s, n, j)
    ensures n == lo || !IsTrimmable(s[n - 1])
    decreases j
  {
    if lo < j && IsTrimmable(s[j - 1]) then SkipBackward(s, lo, j - 1) else j
  }

  /** `s.trim()`: `s` with every leading and trailing trimmable character
      removed. What is removed is trimmable and what remains is trimmed. */
  function Trim(s: string): (r: string)
    ensures exists i, j :: 0 <= i <= j <= |s| && r == s[i..j]
              && TrimmableBetween(s, 0, i) && TrimmableBetween(s, j, |s|)
    ensures IsTrimmed(r)
  {
    var i := SkipForward(s, 0);
    var j := SkipBackward(s, i, |s|);
    assert j == i ==> i == |s|;
    s[i..j]
  }

  /** `trim` undoes padding: a trimmed string surrounded by trimmable
      characters trims back to itself. */
  lemma TrimPadded(a: string, r: string, b: string)
    requires AllTrimmable(a) && AllTrimmable(b) && IsTrimmed(r)
    ensures Trim(a + r + b) == r
  {
    var s := a + r + b;
    var i := SkipForward(s, 0);
    var j := SkipBackward(s, i, |s|);
    assert TrimmableBetween(s, 0, |a|) by {
      forall k | 0 <= k < |a| ensures IsTrimmable(s[k]) { assert s[k] == a[k]; }
    }
    assert TrimmableBetween(s, |a| + |r|, |s|) by {
      forall k | |a| + |r| <= k < |s| ensures IsTrimmable(s[k]) { assert s[k] == b[k - |a| - |r|]; }
    }
    if r != [] {
      assert s[|a|] == r[0];
      assert s[|a| + |r| - 1] == r[|r| - 1];
    }
    assert s[i..j] == r;
  }

  /** Trimming twice is trimming once. */
  lemma TrimIdempotent(s: string)
    ensures Trim(Trim(s)) == Trim(s)
  {
    var r := Trim(s);
    TrimPadded([], r, []);
    assert [] + r + [] == r;
  }

  /** Trimming yields the empty string exactly when every character is
      trimmable. */
  lemma TrimEmptyIff(s: string)
    ensures Trim(s) == [] <==> AllTrimmable(s)
  {
    if AllTrimmable(s) {
      TrimPadded(s, [], []);
      assert s + [] + [] == s;
    }
  }
}
