/**
 * Sanitisation of the `Accept-Encoding` request header: every character
 * outside letters, digits, space and ``"#$%&'()*+,-./:;=?@[]_`` is removed.
 */
module AcceptEncoding {

  /** The characters the sanitising filter keeps. */
  predicate IsAllowed(c: char) {
    || 'a' <= c <= 'z'
    || 'A' <= c <= 'Z'
    || '0' <= c <= '9'
    || '"' <= c <= '/'  // the run "#$%&'()*+,-./
    || c == ':' || c == ';' || c == '=' || c == '?' || c == '@'
    || c == '[' || c == ']' || c == '_' || c == ' '
  }

  /** Every character of `s` is one the filter keeps. */
  predicate AllAllowed(s: string) {
    forall i :: 0 <= i < |s| ==> IsAllowed(s[i])
  }

  /** The header with every disallowed character deleted, the rest kept in order. */
  function Sanitise(s: string): (r: string)
    ensures AllAllowed(r)
    ensures |r| <= |s|
  {
    if s == [] then [] else (if IsAllowed(s[0]) then [s[0]] else []) + Sanitise(s[1..])
  }

  /** Sanitising distributes over concatenation: it is a per-character filter. */
  lemma {:induction false} SanitiseAppend(a: string, b: string)
    ensures Sanitise(a + b) == Sanitise(a) + Sanitise(b)
  {
    if a == [] {
      assert a + b == b;
    } else {
      assert (a + b)[0] == a[0];
      assert (a + b)[1..] == a[1..] + b;
      SanitiseAppend(a[1..], b);
    }
  }

  /** A header that is already clean passes through unchanged, and only such a header does. */
  lemma {:induction false} SanitiseFixpointIff(s: string)
    ensures Sanitise(s) == s <==> AllAllowed(s)
  {
    if s != [] && AllAllowed(s) {
      assert AllAllowed(s[1..]);
      SanitiseFixpointIff(s[1..]);
    }
  }

  /** Re-sanitising a sanitised header changes nothing. */
  lemma SanitiseIdempotent(s: string)
    ensures Sanitise(Sanitise(s)) == Sanitise(s)
  {
    SanitiseFixpointIff(Sanitise(s));
  }

  /**
   * Deleting characters can join what was apart: a header `b<r`, which names
   * no encoding, becomes `br` and is read as accepting Brotli.
   */
  lemma SanitiseJoinsAcrossRemoved()
    ensures Sanitise("b<r") == "br"
  {
    assert !IsAllowed('<');
    assert Sanitise("b<r") == ['b'] + Sanitise("<r");
    assert Sanitise("<r") == Sanitise("r");
  }

  /** One character is kept when it is allowed and deleted when it is not. */
  lemma SanitiseChar(c: char)
    ensures Sanitise([c]) == if IsAllowed(c) then [c] else []
  {
    assert [c][1..] == [];
  }

  /** A disallowed character is deleted, not replaced: what was around it is joined. */
  lemma SanitiseDeletes(a: string, c: char, b: string)
    requires !IsAllowed(c)
    ensures Sanitise(a + [c] + b) == Sanitise(a) + Sanitise(b)
  {
    SanitiseAppend(a + [c], b);
    SanitiseAppend(a, [c]);
    SanitiseChar(c);
  }
}
