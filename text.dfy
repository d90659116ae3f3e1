/** String helpers with the meaning JavaScript gives them in server.js:
    `\s` in regular expressions, `trim`, ASCII `toLowerCase`, `includes`,
    `startsWith`, `split(' ')` and `Array.prototype.join`. */
module Text {

  /** The characters JavaScript's `\s` class (and `String.prototype.trim`) treats as white space. */
  predicate IsJsWhitespace(c: char)
  {
    c == ' ' || c == '\t' || c == '\n' || c == '\r' || c == '\U{B}' || c == '\U{C}'
    || c == '\U{A0}' || c == '\U{1680}' || ('\U{2000}' <= c <= '\U{200A}')
    || c == '\U{2028}' || c == '\U{2029}' || c == '\U{202F}' || c == '\U{205F}'
    || c == '\U{3000}' || c == '\U{FEFF}'
  }

  predicate NoWhitespace(s: string)
  {
    forall i :: 0 <= i < |s| ==> !IsJsWhitespace(s[i])
  }

  function LowerChar(c: char): (d: char)
    ensures 'A' <= c <= 'Z' ==> 'a' <= d <= 'z' && d as int == c as int + 32
    ensures !('A' <= c <= 'Z') ==> d == c
  {
    if 'A' <= c <= 'Z' then (c as int + 32) as char else c
  }

  /** ASCII lower-casing, character by character. */
  function ToLower(s: string): (r: string)
    ensures |r| == |s|
    ensures forall i :: 0 <= i < |s| ==> r[i] == LowerChar(s[i])
  {
    if s == [] then [] else [LowerChar(s[0])] + ToLower(s[1..])
  }

  predicate StartsWith(s: string, prefix: string)
  {
    |prefix| <= |s| && s[..|prefix|] == prefix
  }

  /** `sub` occurs in `s` starting at index `i`. */
  predicate OccursAt(s: string, sub: string, i: int)
  {
    0 <= i <= |s| - |sub| && s[i..i + |sub|] == sub
  }

  /** `s.includes(sub)`. */
  predicate Contains(s: string, sub: string)
  {
    exists i :: 0 <= i <= |s| - |sub| && OccursAt(s, sub, i)
  }

  /** Number of occurrences of `c` in `s`. */
  function Count(s: string, c: char): nat
  {
    if s == [] then 0 else (if s[0] == c then 1 else 0) + Count(s[1..], c)
  }

  lemma {:induction false} CountAppend(a: string, b: string, c: char)
    ensures Count(a + b, c) == Count(a, c) + Count(b, c)
  {
    if a == [] {
      assert a + b == b;
    } else {
      assert (a + b)[1..] == a[1..] + b;
      CountAppend(a[1..], b, c);
    }
  }

  lemma {:induction false} NoCharNoCount(s: string, c: char)
    requires c !in s
    ensures Count(s, c) == 0
  {
    if s != [] {
      NoCharNoCount(s[1..], c);
    }
  }

  lemma {:induction false} NoCharInThree(a: string, b: string, c: string, ch: char)
    requires ch !in a && ch !in b && ch !in c
    ensures Count(a + b + c, ch) == 0
  {
    NoCharNoCount(a, ch);
    NoCharNoCount(b, ch);
    NoCharNoCount(c, ch);
    CountAppend(a, b, ch);
    CountAppend(a + b, c, ch);
  }

  /** `parts.join(sep)`. */
  function Join(parts: seq<string>, sep: string): string
  {
    if parts == [] then ""
    else if |parts| == 1 then parts[0]
    else parts[0] + sep + Join(parts[1..], sep)
  }

  function SumCounts(parts: seq<string>, c: char): nat
  {
    if parts == [] then 0 else Count(parts[0], c) + SumCounts(parts[1..], c)
  }

  /** Joining adds exactly the separators' own occurrences of `c`. */
  lemma {:induction false} CountJoin(parts: seq<string>, sep: string, c: char)
    requires parts != []
    ensures Count(Join(parts, sep), c) == SumCounts(parts, c) + (|parts| - 1) * Count(sep, c)
  {
    if |parts| == 1 {
      assert parts[1..] == [];
    } else {
      CountJoin(parts[1..], sep, c);
      CountAppend(parts[0], sep, c);
      CountAppend(parts[0] + sep, Join(parts[1..], sep), c);
    }
  }

  /** Every part holds `c` exactly once, so the parts hold it `|parts|` times. */
  lemma {:induction false} SumCountsOnes(parts: seq<string>, c: char)
    requires forall i :: 0 <= i < |parts| ==> Count(parts[i], c) == 1
    ensures SumCounts(parts, c) == |parts|
  {
    if parts != [] {
      SumCountsOnes(parts[1..], c);
    }
  }

  /** Parts holding `c` once each, joined by a separator without it, hold it once per part. */
  lemma JoinOnes(parts: seq<string>, sep: string, c: char)
    requires parts != [] && c !in sep
    requires forall i :: 0 <= i < |parts| ==> Count(parts[i], c) == 1
    ensures Count(Join(parts, sep), c) == |parts|
  {
    SumCountsOnes(parts, c);
    CountJoin(parts, sep, c);
    NoCharNoCount(sep, c);
  }

  /** Removes leading JavaScript white space. */
  function TrimStart(s: string): (r: string)
    ensures |r| <= |s| && r == s[|s| - |r|..]
    ensures r == [] || !IsJsWhitespace(r[0])
    ensures forall i :: 0 <= i < |s| - |r| ==> IsJsWhitespace(s[i])
  {
    if s != [] && IsJsWhitespace(s[0]) then TrimStart(s[1..]) else s
  }

  /** Removes trailing JavaScript white space. */
  function TrimEnd(s: string): (r: string)
    ensures |r| <= |s| && r == s[..|r|]
    ensures r == [] || !IsJsWhitespace(r[|r| - 1])
    ensures forall i :: |r| <= i < |s| ==> IsJsWhitespace(s[i])
  {
    if s != [] && IsJsWhitespace(s[|s| - 1]) then TrimEnd(s[..|s| - 1]) else s
  }

  /** `s.trim()`. */
  function Trim(s: string): string
  {
    TrimEnd(TrimStart(s))
  }

  /** `s.split(sep)` for a one-character separator: the pieces between separators, empty ones included. */
  function Split(s: string, sep: char): (parts: seq<string>)
    ensures |parts| == Count(s, sep) + 1
    ensures forall i :: 0 <= i < |parts| ==> sep !in parts[i]
    decreases |s|
  {
    if s == [] then [""]
    else
      var rest := Split(s[1..], sep);
      if s[0] == sep then [""] + rest
      else [[s[0]] + rest[0]] + rest[1..]
  }
}
