/**
 * The few JavaScript built-ins the handlers in backend/analyse.js rely on,
 * stated over Dafny's integers and strings, with the integer `Min` and `Max`
 * used to state them.
 */
module Js {

  /**
   * The value `Number(req.query.limit)` produces. A missing or non-numeric
   * parameter gives NaN; fractional and infinite values are not modelled.
   */
  datatype Number = NaN | Finite(value: int)

  /** JavaScript truthiness of a number: 0 and NaN are falsy, all else truthy. */
  predicate Truthy(n: Number) {
    n.Finite? && n.value != 0
  }

  /** The expression `n || d` on numbers. */
  function Or(n: Number, d: Number): Number {
    if Truthy(n) then n else d
  }

  function Min(a: int, b: int): int {
    if a <= b then a else b
  }

  function Max(a: int, b: int): int {
    if a <= b then b else a
  }

  /**
   * `s.slice(start)`: a negative start counts back from the end and is
   * clamped at 0; a non-negative start is clamped at the length.
   */
  function SliceFrom<T>(s: seq<T>, start: int): (r: seq<T>)
    ensures start < 0 ==> |r| == Min(-start, |s|)
    ensures 0 <= start ==> |r| == Max(|s| - start, 0)
    ensures r == s[|s| - |r|..]
  {
    var from := if start < 0 then Max(|s| + start, 0) else Min(start, |s|);
    s[from..]
  }

  /** The characters `String.prototype.trim` removes: WhiteSpace and LineTerminator. */
  predicate IsWhiteSpace(c: char) {
    || '\t' <= c <= '\r'  // tab, line feed, vertical tab, form feed, carriage return
    || c == ' ' || c == '\U{00A0}' || c == '\U{1680}'
    || '\U{2000}' <= c <= '\U{200A}'
    || c == '\U{2028}' || c == '\U{2029}' || c == '\U{202F}' || c == '\U{205F}'
    || c == '\U{3000}' || c == '\U{FEFF}'
  }

  predicate AllWhiteSpace(s: string) {
    forall i :: 0 <= i < |s| ==> IsWhiteSpace(s[i])
  }

  /** A string that `trim` leaves as it is: empty, or no white space at either end. */
  predicate Trimmed(s: string) {
    s == [] || (!IsWhiteSpace(s[0]) && !IsWhiteSpace(s[|s| - 1]))
  }

  /** The length of the white space at the start of `s`: all of it white space, and the next character not. */
  function LeadingWhiteSpace(s: string): (n: nat)
    ensures n <= |s|
    ensures forall i :: 0 <= i < n ==> IsWhiteSpace(s[i])
    ensures n < |s| ==> !IsWhiteSpace(s[n])
  {
    if s != [] && IsWhiteSpace(s[0]) then 1 + LeadingWhiteSpace(s[1..]) else 0
  }

  /** The length of the white space at the end of `s`: all of it white space, and the character before it not. */
  function TrailingWhiteSpace(s: string): (n: nat)
    ensures n <= |s|
    ensures forall i :: |s| - n <= i < |s| ==> IsWhiteSpace(s[i])
    ensures n < |s| ==> !IsWhiteSpace(s[|s| - 1 - n])
  {
    if s != [] && IsWhiteSpace(s[|s| - 1]) then 1 + TrailingWhiteSpace(s[..|s| - 1]) else 0
  }

  /** `s.trim()`: the result has no white space at either end. */
  function Trim(s: string): (r: string)
    ensures Trimmed(r) && |r| <= |s|
  {
    var t := s[LeadingWhiteSpace(s)..];
    t[..|t| - TrailingWhiteSpace(t)]
  }

  /**
   * What trim removes is white space only: the result is the input with
   * `a` white-space characters dropped at the start and `b` at the end.
   */
  lemma TrimSplit(s: string) returns (a: nat, b: nat)
    ensures a + b <= |s| && Trim(s) == s[a..|s| - b]
    ensures forall i :: 0 <= i < a ==> IsWhiteSpace(s[i])
    ensures forall i :: |s| - b <= i < |s| ==> IsWhiteSpace(s[i])
  {
    a := LeadingWhiteSpace(s);
    var t := s[a..];
    b := TrailingWhiteSpace(t);
    forall i | |s| - b <= i < |s| ensures IsWhiteSpace(s[i]) {
      assert s[i] == t[i - a];
    }
  }

  /**
   * Trim is determined by its contract: white space, then a trimmed middle,
   * then white space always trims to that middle.
   */
  lemma TrimOfPadded(p: string, m: string, q: string)
    requires AllWhiteSpace(p) && AllWhiteSpace(q) && Trimmed(m)
    ensures Trim(p + m + q) == m
  {
    var s := p + m + q;
    var a := LeadingWhiteSpace(s);
    if m == [] {
      assert forall i :: 0 <= i < |s| ==> IsWhiteSpace(s[i]) by {
        assert s == p + q;
      }
    } else {
      assert forall i :: 0 <= i < |p| ==> IsWhiteSpace(s[i]);
      assert s[|p|] == m[0];
      var t := s[a..];
      assert t == m + q;
      var b := TrailingWhiteSpace(t);
      assert forall i :: |t| - |q| <= i < |t| ==> IsWhiteSpace(t[i]) by {
        forall i | |t| - |q| <= i < |t| ensures t[i] == q[i - |m|] { }
      }
      assert t[|m| - 1] == m[|m| - 1];
      assert t[..|t| - b] == m;
    }
  }

  /** Trimming twice is trimming once. */
  lemma TrimIdempotent(s: string)
    ensures Trim(Trim(s)) == Trim(s)
  {
    var r := Trim(s);
    assert r == [] + r + [];
    TrimOfPadded([], r, []);
  }
}
