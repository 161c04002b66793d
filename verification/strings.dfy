/** The string primitives the route relies on: JavaScript's `String.prototype.trim`,
    `startsWith`, a global single-character `replace`, and `Array.prototype.join`. */
module Strings {

  /** The code points `trim` removes: ECMAScript WhiteSpace (TAB, VT, FF, ZWNBSP and
      the Unicode Space_Separator category) and LineTerminator (LF, CR, LS, PS). */
  predicate IsWhitespace(c: char) {
    || c == '\t' || c == '\n' || c == '\U{B}' || c == '\U{C}' || c == '\r'
    || c == ' ' || c == '\U{A0}' || c == '\U{1680}'
    || ('\U{2000}' <= c <= '\U{200A}')
    || c == '\U{2028}' || c == '\U{2029}' || c == '\U{202F}' || c == '\U{205F}'
    || c == '\U{3000}' || c == '\U{FEFF}'
  }

  predicate AllWhitespace(s: string) {
    forall i :: 0 <= i < |s| ==> IsWhitespace(s[i])
  }

  /** Neither the first nor the last character is whitespace (vacuous for ""). */
  predicate NoOuterWhitespace(s: string) {
    |s| > 0 ==> !IsWhitespace(s[0]) && !IsWhitespace(s[|s| - 1])
  }

  /** Every character of `s` in [i, j) is whitespace. */
  predicate WhitespaceBetween(s: string, i: int, j: int)
    requires 0 <= i <= j <= |s|
  {
    forall k :: i <= k < j ==> IsWhitespace(s[k])
  }

  /** The first position at or after `i` that is not whitespace (`|s|` if none). */
  function ContentStart(s: string, i: nat): (r: nat)
    requires i <= |s|
    ensures i <= r <= |s|
    ensures WhitespaceBetween(s, i, r)
    ensures r < |s| ==> !IsWhitespace(s[r])
    decreases |s| - i
  {
    if i == |s| || !IsWhitespace(s[i]) then i else ContentStart(s, i + 1)
  }

  /** The position just after the last non-whitespace character before `j`,
      looking no further back than `lo`. */
  function ContentEnd(s: string, lo: nat, j: nat): (r: nat)
    requires lo <= j <= |s|
    ensures lo <= r <= j
    ensures WhitespaceBetween(s, r, j)
    ensures r > lo ==> !IsWhitespace(s[r - 1])
    decreases j - lo
  {
    if j == lo || !IsWhitespace(s[j - 1]) then j else ContentEnd(s, lo, j - 1)
  }

  /** JavaScript `s.trim()`: `s` without its leading and trailing whitespace. */
  function Trim(s: string): (r: string)
    ensures |r| <= |s|
    ensures NoOuterWhitespace(r)
  {
    var a := ContentStart(s, 0);
    s[a..ContentEnd(s, a, |s|)]
  }

  /** `Trim(s)` is a contiguous slice of `s`, starting at the first
      non-whitespace character. */
  lemma TrimIsSlice(s: string)
    ensures ContentStart(s, 0) + |Trim(s)| <= |s|
    ensures Trim(s) == s[ContentStart(s, 0)..ContentStart(s, 0) + |Trim(s)|]
  {
  }

  /** `Trim(s)` is the middle of `s` between two all-whitespace flanks. */
  lemma TrimSplits(s: string)
    ensures ContentStart(s, 0) + |Trim(s)| <= |s|
    ensures s == s[..ContentStart(s, 0)] + Trim(s) + s[ContentStart(s, 0) + |Trim(s)|..]
    ensures AllWhitespace(s[..ContentStart(s, 0)])
    ensures AllWhitespace(s[ContentStart(s, 0) + |Trim(s)|..])
  {
    var a := ContentStart(s, 0);
    var b := ContentEnd(s, a, |s|);
    assert s == s[..a] + s[a..b] + s[b..];
    assert WhitespaceBetween(s, 0, a) && WhitespaceBetween(s, b, |s|);
  }

  /** A string trims to "" exactly when it is all whitespace. */
  lemma TrimEmptyIff(s: string)
    ensures Trim(s) == "" <==> AllWhitespace(s)
  {
    var a := ContentStart(s, 0);
    var b := ContentEnd(s, a, |s|);
    assert WhitespaceBetween(s, 0, a) && WhitespaceBetween(s, b, |s|);
    if a < |s| {
      assert b > a;
    }
  }

  /** The other half of the characterisation: whatever whitespace surrounds a string
      with no outer whitespace, trimming returns exactly that string. */
  lemma TrimOfPadded(w1: string, c: string, w2: string)
    requires AllWhitespace(w1) && AllWhitespace(w2)
    requires NoOuterWhitespace(c)
    ensures Trim(w1 + c + w2) == c
  {
    var s := w1 + c + w2;
    var p := |w1|;
    var q := |w1| + |c|;
    var a := ContentStart(s, 0);
    var b := ContentEnd(s, a, |s|);
    assert WhitespaceBetween(s, 0, a) && WhitespaceBetween(s, b, |s|);
    if |c| == 0 {
      assert forall k :: 0 <= k < |s| ==> IsWhitespace(s[k]) by {
        forall k | 0 <= k < |s| ensures IsWhitespace(s[k]) {
          if k < p { assert s[k] == w1[k]; } else { assert s[k] == w2[k - p]; }
        }
      }
      assert a == |s|;
    } else {
      assert s[p] == c[0] && s[q - 1] == c[|c| - 1];
      assert forall k :: 0 <= k < p ==> s[k] == w1[k];
      assert forall k :: q <= k < |s| ==> s[k] == w2[k - q];
      assert a == p;
      assert b == q;
      assert s[p..q] == c;
    }
  }

  /** Trimming twice is trimming once. */
  lemma TrimIdempotent(s: string)
    ensures Trim(Trim(s)) == Trim(s)
  {
    var t := Trim(s);
    assert "" + t + "" == t;
    TrimOfPadded("", t, "");
  }

  /** JavaScript `s.startsWith(p)`. */
  predicate StartsWith(s: string, p: string) {
    |p| <= |s| && s[..|p|] == p
  }

  /** A prefix match is a character-by-character match of the first `|p|`
      characters, and splits `s` into `p` and the rest. */
  lemma StartsWithPointwise(s: string, p: string)
    ensures StartsWith(s, p) <==> |p| <= |s| && forall i :: 0 <= i < |p| ==> s[i] == p[i]
    ensures StartsWith(s, p) ==> s == p + s[|p|..]
  {
  }

  /** JavaScript `s.replace(/x/g, y)` for a single character `x`. */
  function ReplaceAll(s: string, x: char, y: char): (r: string)
    ensures |r| == |s|
    ensures forall i :: 0 <= i < |s| ==> r[i] == (if s[i] == x then y else s[i])
  {
    if |s| == 0 then ""
    else [if s[0] == x then y else s[0]] + ReplaceAll(s[1..], x, y)
  }

  /** JavaScript `xs.join(sep)`: the elements in order with `sep` between neighbours;
      the empty list joins to "". */
  function Join(xs: seq<string>, sep: string): (r: string)
    ensures |xs| == 0 ==> r == ""
    ensures |xs| > 0 ==> |xs[0]| <= |r| && r[..|xs[0]|] == xs[0]
  {
    if |xs| == 0 then ""
    else if |xs| == 1 then xs[0]
    else xs[0] + sep + Join(xs[1..], sep)
  }

  /** Appending one element extends the joined string by the separator and that
      element (or starts it, for the first one). */
  lemma {:induction false} JoinSnoc(xs: seq<string>, x: string, sep: string)
    ensures Join(xs + [x], sep) == if |xs| == 0 then x else Join(xs, sep) + sep + x
    decreases |xs|
  {
    if |xs| == 0 {
      assert xs + [x] == [x];
    } else if |xs| == 1 {
      assert (xs + [x])[1..] == [x];
    } else {
      assert (xs + [x])[1..] == xs[1..] + [x];
      JoinSnoc(xs[1..], x, sep);
    }
  }

  /** Joining two non-empty lists puts exactly one separator between their joins. */
  lemma {:induction false} JoinAppend(xs: seq<string>, ys: seq<string>, sep: string)
    requires |xs| > 0 && |ys| > 0
    ensures Join(xs + ys, sep) == Join(xs, sep) + sep + Join(ys, sep)
    decreases |xs|
  {
    if |xs| == 1 {
      assert (xs + ys)[1..] == ys;
    } else {
      assert (xs + ys)[1..] == xs[1..] + ys;
      JoinAppend(xs[1..], ys, sep);
    }
  }
}
