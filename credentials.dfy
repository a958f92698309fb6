/**
 Where the request's API keys come from and which one is forwarded:
 the `x-goog-api-key` header wins over a `Bearer` authorization header,
 the raw value is a comma-separated key list, and one key is picked with
 `Math.floor(Math.random() * n)`.
 */
module Credentials {
  import opened Wrappers
  import opened JsText

  /** Header names as Node hands them over (`req.headers` has lower-cased names). */
  type Headers = map<string, string>

  const X_GOOG_API_KEY := "x-goog-api-key"
  const AUTHORIZATION := "authorization"
  const BEARER_PREFIX := "bearer "

  /** `apiKeySource`: '' (none), 'x-goog' or 'auth'. */
  datatype KeySource = NoSource | GoogHeader | BearerHeader

  /** The source together with `rawApiKeys`, the still unparsed key list. */
  datatype Credential = Credential(source: KeySource, raw: string)

  /** JavaScript truthiness of `req.headers[name]`: present and not the empty string. */
  predicate Truthy(h: Headers, name: string) {
    name in h && h[name] != ""
  }

  /** `value.toLowerCase().startsWith('bearer ')`. */
  predicate HasBearerPrefix(value: string) {
    StartsWith(Lower(value), BEARER_PREFIX)
  }

  /**
   The credential source, first match wins: a truthy `x-goog-api-key`
   (taken whole), else an `authorization` value that starts with `bearer `
   in any letter case (taken from index 7 on), else nothing.
   */
  function ExtractCredential(h: Headers): (c: Credential)
    ensures Truthy(h, X_GOOG_API_KEY) ==> c == Credential(GoogHeader, h[X_GOOG_API_KEY])
    ensures !Truthy(h, X_GOOG_API_KEY) && Truthy(h, AUTHORIZATION) && HasBearerPrefix(h[AUTHORIZATION])
            ==> c.source == BearerHeader && c.raw == h[AUTHORIZATION][7..]
                && BEARER_PREFIX + c.raw == Lower(h[AUTHORIZATION][..7]) + h[AUTHORIZATION][7..]
    ensures c.source == NoSource <==> !Truthy(h, X_GOOG_API_KEY) && !(Truthy(h, AUTHORIZATION) && HasBearerPrefix(h[AUTHORIZATION]))
    ensures c.source == NoSource ==> c.raw == ""
  {
    if Truthy(h, X_GOOG_API_KEY) then
      Credential(GoogHeader, h[X_GOOG_API_KEY])
    else if Truthy(h, AUTHORIZATION) && HasBearerPrefix(h[AUTHORIZATION]) then
      var v := h[AUTHORIZATION];
      assert Lower(v)[..7] == Lower(v[..7]);
      Credential(BearerHeader, v[7..])
    else
      Credential(NoSource, "")
  }

  /**
   The bearer test ignores letter case but the keys are cut from the
   original value: whatever the case of the prefix, the key list is
   exactly what follows it.
   */
  lemma BearerInAnyCase(h: Headers, prefix: string, keys: string)
    requires !Truthy(h, X_GOOG_API_KEY)
    requires Lower(prefix) == BEARER_PREFIX
    requires AUTHORIZATION in h && h[AUTHORIZATION] == prefix + keys
    ensures ExtractCredential(h) == Credential(BearerHeader, keys)
  {
    var v := prefix + keys;
    assert Lower(v)[..7] == Lower(prefix);
    assert v[7..] == keys;
  }

  /** A truthy `x-goog-api-key` decides the source whatever `authorization` holds. */
  lemma GoogKeyShadowsAuthorization(h: Headers, other: string)
    requires Truthy(h, X_GOOG_API_KEY)
    ensures ExtractCredential(h[AUTHORIZATION := other]) == ExtractCredential(h)
    ensures ExtractCredential(h).source == GoogHeader
  {
    assert h[AUTHORIZATION := other][X_GOOG_API_KEY] == h[X_GOOG_API_KEY];
  }

  /** What a parsed key looks like: non-empty, trimmed at both ends and free of commas. */
  predicate IsCleanKey(k: string) {
    k != "" && IsTrimmed(k) && ',' !in k
  }

  /** `pieces.map(k => k.trim())`. */
  function TrimAll(pieces: seq<string>): (r: seq<string>)
    ensures |r| == |pieces|
    ensures forall k :: 0 <= k < |r| ==> r[k] == Trim(pieces[k])
  {
    seq(|pieces|, k requires 0 <= k < |pieces| => Trim(pieces[k]))
  }

  lemma TrimAllAppend(xs: seq<string>, ys: seq<string>)
    ensures TrimAll(xs + ys) == TrimAll(xs) + TrimAll(ys)
  {
  }

  /** `pieces.filter(k => k)`: the non-empty pieces, in their order. */
  function DropEmpty(pieces: seq<string>): (r: seq<string>)
    ensures |r| <= |pieces|
    ensures forall k :: 0 <= k < |r| ==> r[k] != "" && r[k] in pieces
    ensures forall p :: p in pieces && p != "" ==> p in r
  {
    if pieces == [] then []
    else if pieces[0] == "" then DropEmpty(pieces[1..])
    else [pieces[0]] + DropEmpty(pieces[1..])
  }

  lemma {:induction false} DropEmptyAppend(xs: seq<string>, ys: seq<string>)
    ensures DropEmpty(xs + ys) == DropEmpty(xs) + DropEmpty(ys)
  {
    if xs == [] {
      assert xs + ys == ys;
    } else {
      var zs := xs + ys;
      assert zs[0] == xs[0] && zs[1..] == xs[1..] + ys;
      DropEmptyAppend(xs[1..], ys);
      if xs[0] != "" {
        calc {
          DropEmpty(zs);
          [xs[0]] + DropEmpty(xs[1..] + ys);
          [xs[0]] + (DropEmpty(xs[1..]) + DropEmpty(ys));
          ([xs[0]] + DropEmpty(xs[1..])) + DropEmpty(ys);
        }
      }
    }
  }

  /**
   `String(rawApiKeys).split(',').map(k => k.trim()).filter(k => k)`:
   every key is non-empty, free of commas and trimmed at both ends.
   */
  function ParseKeys(raw: string): (keys: seq<string>)
    ensures forall k :: 0 <= k < |keys| ==> IsCleanKey(keys[k])
  {
    CleanPieces(Split(raw));
    DropEmpty(TrimAll(Split(raw)))
  }

  /** Trimming comma-free pieces and dropping the empty ones leaves clean keys only. */
  lemma CleanPieces(pieces: seq<string>)
    requires forall k :: 0 <= k < |pieces| ==> ',' !in pieces[k]
    ensures forall k :: 0 <= k < |DropEmpty(TrimAll(pieces))| ==> IsCleanKey(DropEmpty(TrimAll(pieces))[k])
  {
    var keys := DropEmpty(TrimAll(pieces));
    forall k | 0 <= k < |keys| ensures IsCleanKey(keys[k]) {
      var j :| 0 <= j < |pieces| && Trim(pieces[j]) == keys[k];
      TrimKeepsCommaFree(pieces[j]);
    }
  }

  /** Nothing is lost: every piece of the raw value that is non-empty once trimmed is one of the keys. */
  lemma ParseKeysCoversPieces(raw: string, p: string)
    requires p in Split(raw) && Trim(p) != ""
    ensures Trim(p) in ParseKeys(raw)
  {
    var pieces := Split(raw);
    var j :| 0 <= j < |pieces| && pieces[j] == p;
    assert TrimAll(pieces)[j] == Trim(p);
  }

  /** Trimming a comma-free piece leaves it comma-free. */
  lemma TrimKeepsCommaFree(p: string)
    requires ',' !in p
    ensures ',' !in Trim(p)
  {
    var r := Trim(p);
    var i := TrimOffset(p);
    forall k | 0 <= k < |r| ensures r[k] != ',' {
      assert r[k] == p[i + k];
    }
  }

  /** A comma separates the key lists of both sides. */
  lemma ParseKeysConcat(a: string, b: string)
    ensures ParseKeys(a + "," + b) == ParseKeys(a) + ParseKeys(b)
  {
    SplitConcat(a, b);
    TrimAllAppend(Split(a), Split(b));
    DropEmptyAppend(TrimAll(Split(a)), TrimAll(Split(b)));
  }

  /** A clean key is parsed back as itself. */
  lemma ParseKeysSingle(key: string)
    requires IsCleanKey(key)
    ensures ParseKeys(key) == [key]
  {
    ParseKeysOfPiece(key);
    TrimOfTrimmed(key);
  }

  /** A value without commas is one piece: it holds its trimmed self as the only key, or no key when that is empty. */
  lemma ParseKeysOfPiece(s: string)
    requires ',' !in s
    ensures ParseKeys(s) == if Trim(s) == "" then [] else [Trim(s)]
  {
    ParseKeysOfCommaFree(s);
    DropEmptySingle(Trim(s));
  }

  lemma ParseKeysOfCommaFree(s: string)
    requires ',' !in s
    ensures ParseKeys(s) == DropEmpty([Trim(s)])
  {
    ParseKeysUnfoldPiece(s);
    TrimAllSingle(s);
  }

  lemma ParseKeysUnfoldPiece(s: string)
    requires ',' !in s
    ensures ParseKeys(s) == DropEmpty(TrimAll([s]))
  {
    SplitOfCommaFree(s);
  }

  lemma TrimAllSingle(s: string)
    ensures TrimAll([s]) == [Trim(s)]
  {
  }

  lemma DropEmptySingle(t: string)
    ensures DropEmpty([t]) == if t == "" then [] else [t]
  {
    assert [t][1..] == [];
  }

  /** A clean key in front of a comma is parsed as the first key. */
  lemma ParseKeysCons(key: string, tail: string, rest: seq<string>)
    requires IsCleanKey(key) && ParseKeys(tail) == rest
    ensures ParseKeys(key + "," + tail) == [key] + rest
  {
    ParseKeysSingle(key);
    ParseKeysConcat(key, tail);
  }

  /**
   Round trip: joining clean keys (non-empty, trimmed, comma-free) with
   commas and parsing the result gives back the same keys in the same order.
   */
  lemma {:induction false} ParseKeysOfJoin(keys: seq<string>)
    requires forall k :: 0 <= k < |keys| ==> IsCleanKey(keys[k])
    ensures ParseKeys(Join(keys, ",")) == keys
  {
    if keys == [] {
      assert Split("") == [""];
      assert TrimAll([""]) == [""];
    } else if |keys| == 1 {
      ParseKeysSingle(keys[0]);
    } else {
      var tail := Join(keys[1..], ",");
      assert Join(keys, ",") == keys[0] + "," + tail;
      ParseKeysOfJoin(keys[1..]);
      ParseKeysCons(keys[0], tail, keys[1..]);
      assert keys == [keys[0]] + keys[1..];
    }
  }

  /** Parsing is idempotent: re-joining the parsed keys and parsing again changes nothing. */
  lemma ParseKeysIdempotent(raw: string)
    ensures ParseKeys(Join(ParseKeys(raw), ",")) == ParseKeys(raw)
  {
    ParseKeysOfJoin(ParseKeys(raw));
  }

  /** A key padded with whitespace (and no comma) parses to the bare key. */
  lemma ParseKeysPadded(pre: string, key: string, post: string)
    requires IsCleanKey(key) && AllWhitespace(pre) && AllWhitespace(post)
    ensures ParseKeys(pre + key + post) == [key]
  {
    assert ',' !in pre && ',' !in post;
    var s := pre + key + post;
    assert ',' !in s by {
      forall i | 0 <= i < |s| ensures s[i] != ',' {
        if i < |pre| { assert s[i] == pre[i]; }
        else if i < |pre| + |key| { assert s[i] == key[i - |pre|]; }
        else { assert s[i] == post[i - |pre| - |key|]; }
      }
    }
    ParseKeysOfPiece(s);
    TrimPadded(pre, key, post);
  }

  /** A value of blanks without commas holds no key. */
  lemma ParseKeysBlank(s: string)
    requires AllWhitespace(s) && ',' !in s
    ensures ParseKeys(s) == []
  {
    ParseKeysOfPiece(s);
    TrimWhitespace(s);
  }

  /**
   For example, for any three clean keys: `"a, b ,c"` gives the keys
   `a`, `b` and `c`, in that order.
   */
  lemma ParseKeysExample(a: string, b: string, c: string)
    requires IsCleanKey(a) && IsCleanKey(b) && IsCleanKey(c)
    ensures ParseKeys(a + ", " + b + " ," + c) == [a, b, c]
  {
    var tail := " " + b + " " + "," + c;
    ExampleTail(b, c);
    ParseKeysCons(a, tail, [b, c]);
    assert a + ", " + b + " ," + c == a + "," + tail;
  }

  lemma ExampleTail(b: string, c: string)
    requires IsCleanKey(b) && IsCleanKey(c)
    ensures ParseKeys(" " + b + " " + "," + c) == [b, c]
  {
    ParseKeysSingle(c);
    ParseKeysPadded(" ", b, " ");
    ParseKeysConcat(" " + b + " ", c);
  }

  /** `Math.floor(u * n)` for `u = Math.random()`, computed on the reals: an index into a list of `n` keys. */
  function PickIndex(u: real, n: nat): (i: nat)
    requires 0.0 <= u < 1.0 && n > 0
    ensures i < n
  {
    var x := u * n as real;
    assert x < n as real;
    x.Floor
  }

  /** Every index can be drawn: the random value `i / n` picks index `i`. */
  lemma PickIndexReaches(i: nat, n: nat)
    requires i < n
    ensures var u := i as real / n as real; 0.0 <= u < 1.0 && PickIndex(u, n) == i
  {
    assert (i as real / n as real) * n as real == i as real;
  }

  /**
   `selectedKey`: empty (None) when there is no source or the list is
   empty; otherwise an element of the parsed list, which is never empty.
   */
  function SelectKey(c: Credential, u: real): (key: Option<string>)
    requires 0.0 <= u < 1.0
    ensures key.Some? <==> c.source != NoSource && ParseKeys(c.raw) != []
    ensures key.Some? ==> key.value in ParseKeys(c.raw) && key.value != ""
  {
    if c.source == NoSource then None
    else
      var keys := ParseKeys(c.raw);
      if |keys| > 0 then Some(keys[PickIndex(u, |keys|)]) else None
  }

  /** Every key of the list is selected for some random value. */
  lemma SelectKeyReaches(c: Credential, j: nat)
    requires c.source != NoSource && j < |ParseKeys(c.raw)|
    ensures var u := j as real / |ParseKeys(c.raw)| as real;
            0.0 <= u < 1.0 && SelectKey(c, u) == Some(ParseKeys(c.raw)[j])
  {
    var n := |ParseKeys(c.raw)|;
    PickIndexReaches(j, n);
    SelectKeyAt(c, j as real / n as real, j);
  }

  /** The key selected is the one at the index `PickIndex` draws. */
  lemma SelectKeyAt(c: Credential, u: real, j: nat)
    requires 0.0 <= u < 1.0 && c.source != NoSource && j < |ParseKeys(c.raw)|
    requires PickIndex(u, |ParseKeys(c.raw)|) == j
    ensures SelectKey(c, u) == Some(ParseKeys(c.raw)[j])
  {
  }

  /** With a single key the selection no longer depends on the random value. */
  lemma SelectKeySingle(c: Credential, u: real)
    requires 0.0 <= u < 1.0
    requires c.source != NoSource && |ParseKeys(c.raw)| == 1
    ensures SelectKey(c, u) == Some(ParseKeys(c.raw)[0])
  {
    assert PickIndex(u, 1) == 0;
  }
}
