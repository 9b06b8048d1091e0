/**
 * `String.prototype.trim`, which the add handler applies to the typed text
 * before deciding whether it is empty.
 */
module Text {

  /** The characters `trim` removes: ECMAScript WhiteSpace and LineTerminator. */
  predicate IsWhitespace(c: char) {
    c in WhitespaceChars
  }
  const WhitespaceChars: set<char> := {'\t', '\n', '\U{000B}', '\U{000C}', '\r', ' ', '\U{00A0}', '\U{1680}', '\U{2000}', '\U{2001}', '\U{2002}', '\U{2003}', '\U{2004}', '\U{2005}', '\U{2006}', '\U{2007}', '\U{2008}', '\U{2009}', '\U{200A}', '\U{2028}', '\U{2029}', '\U{202F}', '\U{205F}', '\U{3000}', '\U{FEFF}'}

  predicate AllWhitespace(s: string) {
    forall i :: 0 <= i < |s| ==> IsWhitespace(s[i])
  }

  /** Neither end of `s` is whitespace (vacuously so for the empty string). */
  predicate Tight(s: string) {
    s != [] ==> !IsWhitespace(s[0]) && !IsWhitespace(s[|s| - 1])
  }

  lemma AllWhitespaceJoin(a: string, b: string)
    ensures AllWhitespace(a + b) <==> AllWhitespace(a) && AllWhitespace(b)
  {
    if AllWhitespace(a + b) {
      assert forall i :: 0 <= i < |a| ==> a[i] == (a + b)[i];
      assert forall i :: 0 <= i < |b| ==> b[i] == (a + b)[|a| + i];
    }
  }

  /** `s` with whitespace removed from both ends (`trim`). */
  function Trim(s: string): (r: string)
    ensures Tight(r)
    ensures r == [] <==> AllWhitespace(s)
    ensures |r| <= |s|
    decreases |s|
  {
    if s == [] then []
    else if IsWhitespace(s[0]) then
      assert s == [s[0]] + s[1..];
      AllWhitespaceJoin([s[0]], s[1..]);
      Trim(s[1..])
    else if IsWhitespace(s[|s| - 1]) then
      assert s == s[..|s| - 1] + [s[|s| - 1]];
      AllWhitespaceJoin(s[..|s| - 1], [s[|s| - 1]]);
      Trim(s[..|s| - 1])
    else
      s
  }

  /**
   * Trimming removes exactly the surrounding whitespace: whatever whitespace
   * pads a tight core, the core is what remains.
   */
  lemma {:induction false} TrimOfPadded(pre: string, core: string, post: string)
    requires AllWhitespace(pre) && AllWhitespace(post) && Tight(core)
    ensures Trim(pre + core + post) == core
    decreases |pre| + |post|
  {
    var s := pre + core + post;
    if pre != [] {
      assert s[0] == pre[0];
      assert s[1..] == pre[1..] + core + post;
      TrimOfPadded(pre[1..], core, post);
    } else if post != [] {
      assert s == core + post;
      if core == [] {
        assert s[1..] == [] + [] + post[1..];
        TrimOfPadded([], [], post[1..]);
      } else {
        assert s[0] == core[0] && s[|s| - 1] == post[|post| - 1];
        assert s[..|s| - 1] == [] + core + post[..|post| - 1];
        TrimOfPadded([], core, post[..|post| - 1]);
      }
    } else {
      assert s == core;
    }
  }

  /** Trimming twice is trimming once. */
  lemma TrimIdempotent(s: string)
    ensures Trim(Trim(s)) == Trim(s)
  {
    var r := Trim(s);
    TrimOfPadded([], r, []);
    assert [] + r + [] == r;
  }
}
