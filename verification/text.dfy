/** The string operations the dashboard relies on: `String.prototype.trim`
    on titles, `String.prototype.toLowerCase` on an edited priority, and the
    ordering of ISO `YYYY-MM-DD` deadlines, which for such strings is
    their lexicographic order. */
module Text {

  /** The characters `trim` removes: ECMAScript WhiteSpace (tab, vertical
      tab, form feed, the byte-order mark and every space separator) and
      LineTerminator (line feed, carriage return, U+2028, U+2029). */
  predicate IsWhitespace(c: char): (b: bool)
    ensures c < '\U{0080}' ==> (b <==> c in {' ', '\t', '\n', '\U{000B}', '\U{000C}', '\r'})
  {
    if c <= ' ' then c == ' ' || '\t' <= c <= '\r'  // tab, line feed, vertical tab, form feed, carriage return
    else if c < '\U{00A0}' then false
    else c == '\U{00A0}' || c == '\U{1680}' || ('\U{2000}' <= c <= '\U{200A}') ||
         c == '\U{2028}' || c == '\U{2029}' || c == '\U{202F}' || c == '\U{205F}' ||
         c == '\U{3000}' || c == '\U{FEFF}'
  }

  predicate AllWhitespace(s: string) {
    forall i :: 0 <= i < |s| ==> IsWhitespace(s[i])
  }

  /** The number of whitespace characters at the start of `s`. */
  function Lead(s: string): (n: nat)
    ensures n <= |s|
    ensures forall k :: 0 <= k < n ==> IsWhitespace(s[k])
    ensures n < |s| ==> !IsWhitespace(s[n])
    decreases |s|
  {
    if s == [] || !IsWhitespace(s[0]) then 0 else 1 + Lead(s[1..])
  }

  /** The number of whitespace characters at the end of `s`. */
  function Trail(s: string): (n: nat)
    ensures n <= |s|
    ensures forall k :: |s| - n <= k < |s| ==> IsWhitespace(s[k])
    ensures n < |s| ==> !IsWhitespace(s[|s| - 1 - n])
    decreases |s|
  {
    if s == [] || !IsWhitespace(s[|s| - 1]) then 0 else 1 + Trail(s[..|s| - 1])
  }

  /** `trim`: the slice of `s` between its leading and its trailing
      whitespace. Everything cut off is whitespace, the result neither
      starts nor ends with whitespace, and it is empty exactly when `s`
      holds nothing but whitespace. */
  function Trim(s: string): (r: string)
    ensures Lead(s) + |r| <= |s| && r == s[Lead(s)..Lead(s) + |r|]
    ensures forall k :: 0 <= k < Lead(s) || Lead(s) + |r| <= k < |s| ==> IsWhitespace(s[k])
    ensures r != [] ==> !IsWhitespace(r[0]) && !IsWhitespace(r[|r| - 1])
    ensures r == [] <==> AllWhitespace(s)
  {
    if Lead(s) == |s| then []
    else
      assert !IsWhitespace(s[Lead(s)]);
      s[Lead(s)..|s| - Trail(s)]
  }

  /** `toLowerCase` on one character; only ASCII letters are mapped. */
  function ToLowerChar(c: char): char {
    if 'A' <= c <= 'Z' then (c as int + 32) as char else c
  }

  /** `toLowerCase`: the same length, with every ASCII capital lowered. */
  function ToLower(s: string): (r: string)
    ensures |r| == |s|
    ensures forall i :: 0 <= i < |s| ==> r[i] == ToLowerChar(s[i])
    ensures forall i :: 0 <= i < |r| ==> !('A' <= r[i] <= 'Z')
    decreases |s|
  {
    if s == [] then [] else [ToLowerChar(s[0])] + ToLower(s[1..])
  }

  /** Lowering twice is lowering once. */
  lemma {:induction false} ToLowerIdempotent(s: string)
    ensures ToLower(ToLower(s)) == ToLower(s)
  {
    var t := ToLower(s);
    assert forall i :: 0 <= i < |t| ==> ToLowerChar(t[i]) == t[i];
  }

  /** Strict lexicographic order: `a` is a proper prefix of `b`, or at the
      first position where they differ `a` has the smaller character. */
  predicate LexLess(a: string, b: string): (less: bool)
    ensures less ==> a != b
    ensures |a| < |b| && a == b[..|a|] ==> less
    decreases |a|
  {
    if a == [] then b != []
    else if b == [] then false
    else if a[0] != b[0] then a[0] < b[0]
    else
      assert |a| < |b| && a == b[..|a|] ==> a[1..] == b[1..][..|a| - 1];
      LexLess(a[1..], b[1..])
  }

  /** Two strings that agree up to position `k` and differ there are
      ordered by their characters at `k`. */
  lemma {:induction false} LexLessAt(a: string, b: string, k: nat)
    requires k < |a| && k < |b| && a[..k] == b[..k] && a[k] < b[k]
    ensures LexLess(a, b)
    decreases k
  {
    if k > 0 {
      assert a[0] == a[..k][0] == b[..k][0] == b[0];
      assert a[1..][..k - 1] == a[..k][1..] == b[..k][1..] == b[1..][..k - 1];
      LexLessAt(a[1..], b[1..], k - 1);
    }
  }

  /** Exactly one of `a < b`, `a == b`, `b < a` holds. */
  lemma {:induction false} LexTrichotomy(a: string, b: string)
    ensures LexLess(a, b) || a == b || LexLess(b, a)
    ensures !(LexLess(a, b) && LexLess(b, a))
    ensures !LexLess(a, a)
    decreases |a|
  {
    if a != [] && b != [] && a[0] == b[0] {
      LexTrichotomy(a[1..], b[1..]);
      if a[1..] == b[1..] {
        assert a == [a[0]] + a[1..] && b == [b[0]] + b[1..];
      }
    } else if a != [] {
      LexTrichotomy(a[1..], a[1..]);
    }
  }

  lemma {:induction false} LexTransitive(a: string, b: string, c: string)
    requires LexLess(a, b) && LexLess(b, c)
    ensures LexLess(a, c)
    decreases |a|
  {
    if a != [] && a[0] == b[0] && b[0] == c[0] {
      LexTransitive(a[1..], b[1..], c[1..]);
    }
  }
}
