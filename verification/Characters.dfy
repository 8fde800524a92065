/** Character classes of the C locale, as util.h uses them. */
module Characters {

  predicate IsDigit(c: char) {
    '0' <= c <= '9'
  }

  predicate IsAlpha(c: char) {
    'a' <= c <= 'z' || 'A' <= c <= 'Z'
  }

  predicate IsAlnum(c: char) {
    IsAlpha(c) || IsDigit(c)
  }

  /** Space, tab, newline, vertical tab, form feed and carriage return. */
  predicate IsSpace(c: char) {
    c == ' ' || '\t' <= c <= '\r'
  }

  function Capital(k: nat): char
    requires k < 26
  {
    "ABCDEFGHIJKLMNOPQRSTUVWXYZ"[k]
  }

  function Small(k: nat): char
    requires k < 26
  {
    "abcdefghijklmnopqrstuvwxyz"[k]
  }

  lemma LetterCodes(k: nat)
    requires k < 26
    ensures Capital(k) as int == 'A' as int + k && Small(k) as int == 'a' as int + k
  {
  }

  /** The classes by their members. */
  lemma Classes(c: char)
    ensures IsDigit(c) <==> c in "0123456789"
    ensures IsAlpha(c) <==> exists k: nat :: k < 26 && (c == Capital(k) || c == Small(k))
    ensures IsSpace(c) <==> c as int in [9, 10, 11, 12, 13, 32]
  {
    hide Capital, Small;
    if IsAlpha(c) {
      var k := if c <= 'Z' then c as int - 'A' as int else c as int - 'a' as int;
      LetterCodes(k);
      assert c == Capital(k) || c == Small(k);
    }
    if k: nat :| k < 26 && (c == Capital(k) || c == Small(k)) {
      LetterCodes(k);
    }
  }

  /** The length of the longest prefix whose characters satisfy p. */
  function Span(s: string, p: char -> bool): (n: nat)
    ensures n <= |s|
    ensures forall i :: 0 <= i < n ==> p(s[i])
    ensures n < |s| ==> !p(s[n])
  {
    if s != [] && p(s[0]) then 1 + Span(s[1..], p) else 0
  }

  lemma {:induction false} SpanIs(s: string, p: char -> bool, n: nat)
    requires n <= |s| && forall i :: 0 <= i < n ==> p(s[i])
    requires n == |s| || !p(s[n])
    ensures Span(s, p) == n
  {
  }

  ghost predicate AllSpace(s: string) {
    forall i :: 0 <= i < |s| ==> IsSpace(s[i])
  }
}
