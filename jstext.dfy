/**
 The JavaScript string operations the proxy handler relies on:
 `toLowerCase` (on the ASCII letters), `startsWith`, `trim` and `split(',')`,
 together with the properties that pin each of them down.
 */
module JsText {

  /** `toLowerCase` on one character: the ASCII capitals map to their small letters. */
  function LowerChar(c: char): char {
    if IsUpperAscii(c) then (c as int + 32) as char else c
  }

  /** An ASCII capital letter. */
  predicate IsUpperAscii(c: char) {
    'A' <= c <= 'Z'
  }

  /** `toLowerCase` applied character by character. */
  function Lower(s: string): (r: string)
    ensures |r| == |s|
    ensures forall i :: 0 <= i < |s| ==> r[i] == LowerChar(s[i])
  {
    seq(|s|, i requires 0 <= i < |s| => LowerChar(s[i]))
  }

  /** No ASCII capital is left, and a string without ASCII capitals is left alone. */
  lemma LowerNoCapitals(s: string)
    ensures forall i :: 0 <= i < |s| ==> !IsUpperAscii(Lower(s)[i])
    ensures (forall i :: 0 <= i < |s| ==> !IsUpperAscii(s[i])) ==> Lower(s) == s
  {
  }

  /** Two characters that differ at most in ASCII letter case. */
  predicate SameLetterIgnoringCase(c: char, d: char) {
    c == d
    || (IsUpperAscii(c) && d as int == c as int + 32)
    || (IsUpperAscii(d) && c as int == d as int + 32)
  }

  /** Strings that differ only in the case of ASCII letters lower to the same string. */
  lemma LowerIgnoresCase(s: string, t: string)
    requires |s| == |t|
    requires forall i :: 0 <= i < |s| ==> SameLetterIgnoringCase(s[i], t[i])
    ensures Lower(s) == Lower(t)
  {
    forall i | 0 <= i < |s| ensures Lower(s)[i] == Lower(t)[i] {
      assert LowerChar(s[i]) == LowerChar(t[i]);
    }
  }

  /** Lower-casing twice is lower-casing once. */
  lemma LowerIdempotent(s: string)
    ensures Lower(Lower(s)) == Lower(s)
  {
    LowerNoCapitals(s);
    LowerNoCapitals(Lower(s));
  }

  /** `s.startsWith(p)`. */
  predicate StartsWith(s: string, p: string) {
    |p| <= |s| && s[..|p|] == p
  }

  /**
   The characters `String.prototype.trim` removes: the ECMAScript WhiteSpace
   and LineTerminator code points.
   */
  predicate IsWhitespace(c: char) {
    c == '\t' || c == '\n' || c == '\U{B}' || c == '\U{C}' || c == '\r' || c == ' '
    || c == '\U{A0}' || c == '\U{1680}' || ('\U{2000}' <= c <= '\U{200A}')
    || c == '\U{2028}' || c == '\U{2029}' || c == '\U{202F}' || c == '\U{205F}'
    || c == '\U{3000}' || c == '\U{FEFF}'
  }

  predicate AllWhitespace(s: string) {
    forall i :: 0 <= i < |s| ==> IsWhitespace(s[i])
  }

  /** A string that `trim` leaves alone: it neither starts nor ends with whitespace. */
  predicate IsTrimmed(s: string) {
    s == [] || (!IsWhitespace(s[0]) && !IsWhitespace(s[|s| - 1]))
  }

  /** Every character of `s[lo..hi]` is whitespace. */
  predicate WhitespaceBetween(s: string, lo: int, hi: int)
    requires 0 <= lo <= hi <= |s|
  {
    forall i :: lo <= i < hi ==> IsWhitespace(s[i])
  }

  /** Skips the whitespace of `s` from index `i`: the first index at or after `i` that is not whitespace, or `|s|`. */
  function LeadingEnd(s: string, i: nat): (j: nat)
    requires i <= |s|
    ensures i <= j <= |s| && WhitespaceBetween(s, i, j)
    ensures j == |s| || !IsWhitespace(s[j])
    decreases |s| - i
  {
    if i < |s| && IsWhitespace(s[i]) then LeadingEnd(s, i + 1) else i
  }

  /** Skips the whitespace of `s` backwards from index `j`, stopping at `lo`. */
  function TrailingStart(s: string, lo: nat, j: nat): (k: nat)
    requires lo <= j <= |s|
    ensures lo <= k <= j && WhitespaceBetween(s, k, j)
    ensures k == lo || !IsWhitespace(s[k - 1])
    decreases j
  {
    if lo < j && IsWhitespace(s[j - 1]) then TrailingStart(s, lo, j - 1) else j
  }

  /** How much leading whitespace `trim` drops from `s`. */
  function TrimOffset(s: string): (i: nat)
    ensures i <= |s|
  {
    LeadingEnd(s, 0)
  }

  /**
   `s.trim()`: the result sits in `s` at `TrimOffset(s)`, padded on both
   sides by whitespace only, and neither starts nor ends with whitespace.
   */
  function Trim(s: string): (r: string)
    ensures IsTrimmed(r)
    ensures TrimOffset(s) + |r| <= |s| && r == s[TrimOffset(s)..TrimOffset(s) + |r|]
    ensures WhitespaceBetween(s, 0, TrimOffset(s)) && WhitespaceBetween(s, TrimOffset(s) + |r|, |s|)
  {
    var i := TrimOffset(s);
    var k := TrailingStart(s, i, |s|);
    assert k > i ==> s[i..k][0] == s[i] && s[i..k][k - i - 1] == s[k - 1];
    s[i..k]
  }

  /** `trim` changes nothing on a string that is already trimmed. */
  lemma TrimOfTrimmed(s: string)
    requires IsTrimmed(s)
    ensures Trim(s) == s
  {
    if s != [] {
      assert s[..|s|] == s;
    }
  }

  /** Trimming removes exactly the whitespace padding around a non-empty trimmed string. */
  lemma TrimPadded(pre: string, t: string, post: string)
    requires AllWhitespace(pre) && AllWhitespace(post)
    requires t != [] && IsTrimmed(t)
    ensures Trim(pre + t + post) == t
  {
    var s := pre + t + post;
    var m := |pre|;
    var e := |pre| + |t|;
    assert s[m] == t[0] && s[e - 1] == t[|t| - 1];
    assert WhitespaceBetween(s, 0, m) by {
      forall i | 0 <= i < m ensures IsWhitespace(s[i]) { assert s[i] == pre[i]; }
    }
    assert WhitespaceBetween(s, e, |s|) by {
      forall i | e <= i < |s| ensures IsWhitespace(s[i]) { assert s[i] == post[i - e]; }
    }
    LeadingEndStops(s, 0, m);
    TrailingStartStops(s, m, e, |s|);
    assert s[m..e] == t;
  }

  lemma {:induction false} LeadingEndStops(s: string, i: nat, m: nat)
    requires i <= m < |s| && WhitespaceBetween(s, i, m) && !IsWhitespace(s[m])
    ensures LeadingEnd(s, i) == m
    decreases m - i
  {
    if i < m {
      LeadingEndStops(s, i + 1, m);
    }
  }

  lemma {:induction false} TrailingStartStops(s: string, lo: nat, e: nat, j: nat)
    requires lo < e <= j <= |s| && WhitespaceBetween(s, e, j) && !IsWhitespace(s[e - 1])
    ensures TrailingStart(s, lo, j) == e
    decreases j
  {
    if e < j {
      TrailingStartStops(s, lo, e, j - 1);
    }
  }

  lemma {:induction false} LeadingEndAll(s: string, i: nat)
    requires i <= |s| && WhitespaceBetween(s, i, |s|)
    ensures LeadingEnd(s, i) == |s|
    decreases |s| - i
  {
    if i < |s| {
      LeadingEndAll(s, i + 1);
    }
  }

  /** Trimming a string of whitespace leaves nothing. */
  lemma TrimWhitespace(s: string)
    requires AllWhitespace(s)
    ensures Trim(s) == ""
  {
    LeadingEndAll(s, 0);
  }

  /** `pieces.join(sep)`. */
  function Join(pieces: seq<string>, sep: string): string {
    if pieces == [] then ""
    else if |pieces| == 1 then pieces[0]
    else pieces[0] + sep + Join(pieces[1..], sep)
  }

  /**
   `s.split(',')`: the pieces between the commas, in order. There is always
   at least one piece (`"".split(',')` is `[""]`), no piece holds a comma,
   and joining the pieces with commas gives back `s`.
   */
  function Split(s: string): (r: seq<string>)
    ensures |r| >= 1
    ensures forall k :: 0 <= k < |r| ==> ',' !in r[k]
    ensures Join(r, ",") == s
  {
    if s == [] then [""]
    else if s[0] == ',' then [""] + Split(s[1..])
    else
      var rest := Split(s[1..]);
      [[s[0]] + rest[0]] + rest[1..]
  }

  /**
   The two properties in `Split`'s contract determine it: any comma-free
   pieces that join to `s` are exactly `Split(s)`.
   */
  lemma {:induction false} SplitUnique(s: string, pieces: seq<string>)
    requires |pieces| >= 1
    requires forall k :: 0 <= k < |pieces| ==> ',' !in pieces[k]
    requires Join(pieces, ",") == s
    ensures pieces == Split(s)
    decreases |pieces|
  {
    if |pieces| == 1 {
      SplitOfCommaFree(s);
    } else {
      var tail := Join(pieces[1..], ",");
      assert s == pieces[0] + "," + tail;
      SplitUnique(tail, pieces[1..]);
      SplitAfterPiece(pieces[0], tail);
    }
  }

  /** A string without commas splits into itself alone. */
  lemma {:induction false} SplitOfCommaFree(s: string)
    requires ',' !in s
    ensures Split(s) == [s]
  {
    if s != [] {
      assert ',' !in s[1..] by {
        forall k | 0 <= k < |s[1..]| ensures s[1..][k] != ',' {
          assert s[1..][k] == s[k + 1];
        }
      }
      SplitOfCommaFree(s[1..]);
      assert [s[0]] + s[1..] == s;
    }
  }

  /** Splitting `p + "," + t` for a comma-free `p` yields `p`, then the pieces of `t`. */
  lemma {:induction false} SplitAfterPiece(p: string, t: string)
    requires ',' !in p
    ensures Split(p + "," + t) == [p] + Split(t)
  {
    if p == [] {
      assert p + "," + t == [','] + t;
      assert ([','] + t)[1..] == t;
    } else {
      var s := p + "," + t;
      assert s[0] == p[0];
      assert s[1..] == p[1..] + "," + t;
      assert ',' !in p[1..] by {
        forall k | 0 <= k < |p[1..]| ensures p[1..][k] != ',' {
          assert p[1..][k] == p[k + 1];
        }
      }
      SplitAfterPiece(p[1..], t);
      assert [p[0]] + p[1..] == p;
    }
  }

  /** A comma splits the pieces apart: the pieces of `a + "," + b` are those of `a`, then those of `b`. */
  lemma {:induction false} SplitConcat(a: string, b: string)
    ensures Split(a + "," + b) == Split(a) + Split(b)
  {
    var pa, pb := Split(a), Split(b);
    var both := pa + pb;
    JoinAppend(pa, pb, ",");
    forall k | 0 <= k < |both| ensures ',' !in both[k] {
      if k < |pa| { assert both[k] == pa[k]; } else { assert both[k] == pb[k - |pa|]; }
    }
    SplitUnique(a + "," + b, both);
  }

  lemma {:induction false} JoinAppend(xs: seq<string>, ys: seq<string>, sep: string)
    requires xs != [] && ys != []
    ensures Join(xs + ys, sep) == Join(xs, sep) + sep + Join(ys, sep)
  {
    if |xs| == 1 {
      assert (xs + ys)[1..] == ys;
    } else {
      assert (xs + ys)[1..] == xs[1..] + ys;
      JoinAppend(xs[1..], ys, sep);
    }
  }
}
