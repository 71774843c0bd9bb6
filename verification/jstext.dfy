/**
 * White space and trimming as JavaScript defines them: the characters
 * `String.prototype.trim` removes, which are also the ones the
 * regular-expression class `\s` matches.
 */
module JsText {

  /** A WhiteSpace or LineTerminator code point of ECMAScript. */
  predicate IsSpace(c: char) {
    || c == '\t' || c == '\n' || c == '\U{000B}' || c == '\U{000C}' || c == '\r' || c == ' '
    || c == '\U{00A0}' || c == '\U{1680}' || ('\U{2000}' <= c <= '\U{200A}')
    || c == '\U{2028}' || c == '\U{2029}' || c == '\U{202F}' || c == '\U{205F}'
    || c == '\U{3000}' || c == '\U{FEFF}'
  }

  /** The number of white-space characters at the start of `s`. */
  function LeadingSpaces(s: string): (k: nat)
    ensures k <= |s|
    ensures forall i :: 0 <= i < k ==> IsSpace(s[i])
    ensures k == |s| || !IsSpace(s[k])
  {
    if s != [] && IsSpace(s[0]) then
      var k := LeadingSpaces(s[1..]);
      assert forall i :: 1 <= i < k + 1 ==> s[i] == s[1..][i - 1];
      k + 1
    else 0
  }

  /** Where the white space at the end of `s` begins. */
  function TrailingStart(s: string): (j: nat)
    ensures j <= |s|
    ensures forall i :: j <= i < |s| ==> IsSpace(s[i])
    ensures j == 0 || !IsSpace(s[j - 1])
  {
    if s != [] && IsSpace(s[|s| - 1]) then TrailingStart(s[..|s| - 1]) else |s|
  }

  /** Leading white space removed. */
  function TrimStart(s: string): string {
    s[LeadingSpaces(s)..]
  }

  /** Trailing white space removed. */
  function TrimEnd(s: string): string {
    s[..TrailingStart(s)]
  }

  /** `s.trim()`. */
  function Trim(s: string): (r: string)
    ensures |r| <= |s|
    ensures r != [] ==> !IsSpace(r[0]) && !IsSpace(r[|r| - 1])
  {
    TrimEnd(TrimStart(s))
  }

  predicate AllSpace(s: string) {
    forall i :: 0 <= i < |s| ==> IsSpace(s[i])
  }

  /** The trim is what is left between a white-space prefix and a white-space suffix; it is empty exactly for white space only. */
  lemma TrimSurrounds(s: string)
    ensures exists a, b :: s == a + Trim(s) + b && AllSpace(a) && AllSpace(b)
    ensures Trim(s) == [] <==> AllSpace(s)
  {
    var k := LeadingSpaces(s);
    var t := s[k..];
    var j := TrailingStart(t);
    assert AllSpace(s[..k]);
    assert AllSpace(t[j..]);
    assert s == s[..k] + Trim(s) + t[j..] by {
      assert Trim(s) == t[..j];
      assert t == t[..j] + t[j..];
      assert s == s[..k] + t;
    }
    assert Trim(s) == [] ==> AllSpace(s) by {
      if Trim(s) == [] {
        assert k == |s|;
        assert s == s[..k];
      }
    }
    assert AllSpace(s) ==> Trim(s) == [] by {
      if AllSpace(s) {
        assert k == |s|;
      }
    }
  }

  /** A text that neither starts nor ends with white space is its own trim. */
  lemma TrimNoEdges(s: string)
    requires s != [] ==> !IsSpace(s[0]) && !IsSpace(s[|s| - 1])
    ensures Trim(s) == s
  {
    LeadingSpacesAt(s, 0);
    assert TrimStart(s) == s;
    TrailingStartAt(s, |s|);
  }

  /** The leading white space is the longest all-space prefix. */
  lemma LeadingSpacesAt(s: string, k: nat)
    requires k <= |s| && (forall i :: 0 <= i < k ==> IsSpace(s[i])) && (k == |s| || !IsSpace(s[k]))
    ensures LeadingSpaces(s) == k
  {
  }

  /** The trailing white space is the longest all-space suffix. */
  lemma TrailingStartAt(s: string, j: nat)
    requires j <= |s| && (forall i :: j <= i < |s| ==> IsSpace(s[i])) && (j == 0 || !IsSpace(s[j - 1]))
    ensures TrailingStart(s) == j
  {
  }

  /** Trimming the front first or the back first gives the same text. */
  lemma TrimCommutes(s: string)
    ensures TrimStart(TrimEnd(s)) == TrimEnd(TrimStart(s))
  {
    var k := LeadingSpaces(s);
    var j := TrailingStart(s);
    if k >= j {
      LeadingSpacesAt(s[..j], j);
      TrailingStartAt(s[k..], 0);
    } else {
      LeadingSpacesAt(s[..j], k);
      TrailingStartAt(s[k..], j - k);
      assert s[..j][k..] == s[k..][..j - k];
    }
  }

  lemma TrimStartTwice(s: string)
    ensures TrimStart(TrimStart(s)) == TrimStart(s)
  {
    LeadingSpacesAt(TrimStart(s), 0);
  }

  lemma TrimEndTwice(s: string)
    ensures TrimEnd(TrimEnd(s)) == TrimEnd(s)
  {
    var t := TrimEnd(s);
    TrailingStartAt(t, |t|);
  }

  lemma TrimStartConcat(x: string, z: string)
    requires z != [] && !IsSpace(z[0])
    ensures TrimStart(x + z) == TrimStart(x) + z
  {
    var k := LeadingSpaces(x);
    LeadingSpacesAt(x + z, k);
    assert (x + z)[k..] == x[k..] + z;
  }

  lemma TrimEndConcat(x: string, z: string)
    requires x != [] && !IsSpace(x[|x| - 1])
    ensures TrimEnd(x + z) == x + TrimEnd(z)
  {
    var j := TrailingStart(z);
    TrailingStartAt(x + z, |x| + j);
    assert (x + z)[..|x| + j] == x + z[..j];
  }
}
