/** Python's `str.strip()` with no argument, as used on habit names. */
module Text {

  /** `str.isspace()` for one character: the Unicode whitespace Python strips. */
  predicate IsSpace(c: char) {
    || ('\t' <= c <= '\r')
    || ('\U{1C}' <= c <= ' ')
    || c == '\U{85}' || c == '\U{A0}' || c == '\U{1680}'
    || ('\U{2000}' <= c <= '\U{200A}')
    || c == '\U{2028}' || c == '\U{2029}' || c == '\U{202F}'
    || c == '\U{205F}' || c == '\U{3000}'
  }

  predicate AllSpace(s: string) {
    forall i :: 0 <= i < |s| ==> IsSpace(s[i])
  }

  /** No whitespace at either end (vacuously true of the empty string). */
  predicate Trimmed(s: string) {
    s != [] ==> !IsSpace(s[0]) && !IsSpace(s[|s| - 1])
  }

  /** Number of whitespace characters at the start of `s`. */
  function LeadingSpaces(s: string): (n: nat)
    ensures n <= |s|
    ensures AllSpace(s[..n])
    ensures n < |s| ==> !IsSpace(s[n])
  {
    if s == [] || !IsSpace(s[0]) then 0
    else
      var k := LeadingSpaces(s[1..]);
      assert s[1..][..k] == s[1..k + 1];
      k + 1
  }

  /** Number of whitespace characters at the end of `s`. */
  function TrailingSpaces(s: string): (n: nat)
    ensures n <= |s|
    ensures AllSpace(s[|s| - n..])
    ensures n < |s| ==> !IsSpace(s[|s| - n - 1])
  {
    if s == [] || !IsSpace(s[|s| - 1]) then 0
    else
      var k := TrailingSpaces(s[..|s| - 1]);
      assert s[..|s| - 1][|s| - 1 - k..] == s[|s| - 1 - k..|s| - 1];
      k + 1
  }

  /** If some character is not whitespace, the leading and trailing runs do not meet. */
  lemma SpacesDisjoint(s: string)
    requires LeadingSpaces(s) < |s|
    ensures LeadingSpaces(s) + TrailingSpaces(s) < |s|
  {
  }

  /** `s.strip()`: `s` without its leading and trailing whitespace. */
  function Strip(s: string): (r: string)
    ensures |r| <= |s|
    ensures Trimmed(r)
    ensures r == [] <==> AllSpace(s)
  {
    var a := LeadingSpaces(s);
    if a == |s| then
      assert s[..a] == s;
      []
    else
      var b := TrailingSpaces(s);
      SpacesDisjoint(s);
      assert !IsSpace(s[a]);
      s[a..|s| - b]
  }

  /** Every string is its stripped form framed by whitespace on both sides. */
  lemma StripFrame(s: string)
    ensures LeadingSpaces(s) + |Strip(s)| <= |s|
    ensures AllSpace(s[LeadingSpaces(s) + |Strip(s)|..])
    ensures s == s[..LeadingSpaces(s)] + Strip(s) + s[LeadingSpaces(s) + |Strip(s)|..]
  {
    if LeadingSpaces(s) == |s| {
      BlankFrame(s);
    } else {
      TextFrame(s);
    }
  }

  lemma BlankFrame(s: string)
    requires LeadingSpaces(s) == |s|
    ensures Strip(s) == [] && s == s[..|s|] + [] + s[|s|..]
  {
    assert s[..|s|] == s;
  }

  lemma TextFrame(s: string)
    requires LeadingSpaces(s) < |s|
    ensures var a, b := LeadingSpaces(s), TrailingSpaces(s);
            a + b < |s| && Strip(s) == s[a..|s| - b] && s == s[..a] + s[a..|s| - b] + s[|s| - b..]
  {
    SpacesDisjoint(s);
    SplitThree(s, LeadingSpaces(s), |s| - TrailingSpaces(s));
  }

  lemma SplitThree(s: string, i: nat, j: nat)
    requires i <= j <= |s|
    ensures s == s[..i] + s[i..j] + s[j..]
  {
    assert s[..i] + s[i..j] == s[..j];
  }

  /** A trimmed string framed by whitespace strips back to itself: together with
      StripFrame this says `Strip` removes exactly the outer whitespace. */
  lemma {:induction false} StripOfFramed(p: string, t: string, q: string)
    requires AllSpace(p) && AllSpace(q) && Trimmed(t)
    ensures Strip(p + t + q) == t
  {
    var s := p + t + q;
    if t == [] {
      assert s == p + q;
      assert AllSpace(s) by {
        forall i | 0 <= i < |s| ensures IsSpace(s[i]) {
          if i < |p| { assert s[i] == p[i]; } else { assert s[i] == q[i - |p|]; }
        }
      }
    } else {
      LeadingOfFramed(p, t + q);
      assert s == p + (t + q);
      assert LeadingSpaces(s) == |p|;
      TrailingOfFramed(p + t, q);
      assert TrailingSpaces(s) == |q|;
      assert s[|p|..|s| - |q|] == t;
    }
  }

  lemma {:induction false} LeadingOfFramed(p: string, u: string)
    requires AllSpace(p) && u != [] && !IsSpace(u[0])
    ensures LeadingSpaces(p + u) == |p|
  {
    if p != [] {
      assert (p + u)[1..] == p[1..] + u;
      LeadingOfFramed(p[1..], u);
    } else {
      assert p + u == u;
    }
  }

  lemma {:induction false} TrailingOfFramed(u: string, q: string)
    requires AllSpace(q) && u != [] && !IsSpace(u[|u| - 1])
    ensures TrailingSpaces(u + q) == |q|
  {
    if q != [] {
      assert (u + q)[..|u + q| - 1] == u + q[..|q| - 1];
      TrailingOfFramed(u, q[..|q| - 1]);
    } else {
      assert u + q == u;
    }
  }

  /** Stripping twice is stripping once. */
  lemma StripIdempotent(s: string)
    ensures Strip(Strip(s)) == Strip(s)
  {
    StripOfFramed([], Strip(s), []);
    assert [] + Strip(s) + [] == Strip(s);
  }
}
