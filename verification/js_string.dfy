/** The JavaScript string built-ins the launcher relies on: `toLowerCase`
    (over ASCII), `endsWith`, the case-insensitive comparison a `/…/i`
    regular expression performs, and `trim`. */
module JsString {

  predicate IsAsciiUpper(c: char) {
    'A' <= c <= 'Z'
  }

  /** Lower-cases an ASCII capital; every other character is left alone. */
  function LowerChar(c: char): (d: char)
    ensures !IsAsciiUpper(d)
    ensures !IsAsciiUpper(c) ==> d == c
    ensures IsAsciiUpper(c) ==> d as int - c as int == 'a' as int - 'A' as int
  {
    if IsAsciiUpper(c) then (c as int + 32) as char else c
  }

  /** `s.toLowerCase()`, restricted to ASCII case mapping. */
  function ToLower(s: string): (r: string)
    ensures |r| == |s|
    ensures forall i :: 0 <= i < |s| ==> r[i] == LowerChar(s[i])
  {
    seq(|s|, i requires 0 <= i < |s| => LowerChar(s[i]))
  }

  /** `s.endsWith(suffix)`: `s` is some prefix followed by `suffix`. */
  function EndsWith(s: string, suffix: string): (b: bool)
    ensures b <==> |suffix| <= |s| && s == s[..|s| - |suffix|] + suffix
  {
    |suffix| <= |s| && s[|s| - |suffix|..] == suffix
  }

  /** Character-wise equality up to ASCII case. A regular expression with
      the `i` flag (and without `u`) also folds non-ASCII pairs such as `é`
      and `É`, which this does not; the two agree whenever one side is
      ASCII, as the `.swf` suffix it is compared with here is. */
  predicate SameIgnoringCase(a: string, b: string) {
    |a| == |b| && forall i :: 0 <= i < |a| ==> LowerChar(a[i]) == LowerChar(b[i])
  }

  /** The code points `String.prototype.trim` strips: the ECMAScript
      WhiteSpace production (TAB, VT, FF, ZWNBSP and every Unicode space
      separator) and the LineTerminator production (LF, CR, LS, PS). */
  predicate IsWhitespace(c: char) {
    || c in {'\t', '\n', '\U{000B}', '\U{000C}', '\r', ' ', '\U{00A0}', '\U{1680}'}
    || ('\U{2000}' <= c <= '\U{200A}')
    || c in {'\U{2028}', '\U{2029}', '\U{202F}', '\U{205F}', '\U{3000}', '\U{FEFF}'}
  }

  predicate AllWhitespace(s: string) {
    forall i :: 0 <= i < |s| ==> IsWhitespace(s[i])
  }

  /** Neither end of `s` is whitespace. */
  predicate Unpadded(s: string) {
    s == [] || (!IsWhitespace(s[0]) && !IsWhitespace(s[|s| - 1]))
  }

  /** `s.trimStart()`: the suffix left after dropping leading whitespace. */
  function TrimStart(s: string): (r: string)
    ensures |r| <= |s| && r == s[|s| - |r|..]
    ensures AllWhitespace(s[..|s| - |r|])
    ensures r == [] || !IsWhitespace(r[0])
    decreases |s|
  {
    if |s| > 0 && IsWhitespace(s[0]) then
      var r := TrimStart(s[1..]);
      assert s[..|s| - |r|] == [s[0]] + s[1..][..|s| - 1 - |r|];
      r
    else s
  }

  /** `s.trimEnd()`: the prefix left after dropping trailing whitespace. */
  function TrimEnd(s: string): (r: string)
    ensures |r| <= |s| && r == s[..|r|]
    ensures AllWhitespace(s[|r|..])
    ensures r == [] || !IsWhitespace(r[|r| - 1])
    decreases |s|
  {
    if |s| > 0 && IsWhitespace(s[|s| - 1]) then
      var r := TrimEnd(s[..|s| - 1]);
      assert s[|r|..] == s[..|s| - 1][|r|..] + [s[|s| - 1]];
      r
    else s
  }

  /** `s.trim()`: `s` without its leading and trailing whitespace. */
  function Trim(s: string): (r: string)
    ensures |r| <= |s|
    ensures Unpadded(r)
  {
    TrimEnd(TrimStart(s))
  }

  /** `s` is `pad + r + pad'` with both paddings whitespace. */
  ghost predicate TrimmedAt(s: string, start: int, r: string) {
    && 0 <= start <= start + |r| <= |s|
    && s[start..start + |r|] == r
    && AllWhitespace(s[..start])
    && AllWhitespace(s[start + |r|..])
  }

  /** What `trim` returns is a contiguous piece of its input, and everything
      around that piece is whitespace. */
  lemma TrimIsWhitespaceBounded(s: string)
    ensures TrimmedAt(s, |s| - |TrimStart(s)|, Trim(s))
  {
    var t := TrimStart(s);
    PeelingIsTrimmedAt(s, t, TrimEnd(t));
  }

  /** Peeling a whitespace prefix and then a whitespace suffix leaves a
      piece of the original bounded by whitespace. */
  lemma PeelingIsTrimmedAt(s: string, t: string, r: string)
    requires |t| <= |s| && t == s[|s| - |t|..] && AllWhitespace(s[..|s| - |t|])
    requires |r| <= |t| && r == t[..|r|] && AllWhitespace(t[|r|..])
    ensures TrimmedAt(s, |s| - |t|, r)
  {
    var start := |s| - |t|;
    assert s[start..start + |r|] == t[..|r|];
    assert s[start + |r|..] == t[|r|..];
  }

  /** Any whitespace padding around an unpadded core is exactly what `trim`
      removes: the decomposition `pad + core + pad'` determines the result. */
  lemma {:induction false} TrimRemovesPadding(pad: string, core: string, pad': string)
    requires AllWhitespace(pad) && AllWhitespace(pad')
    requires Unpadded(core)
    ensures Trim(pad + core + pad') == core
  {
    var s := pad + core + pad';
    if core == [] {
      assert s == (pad + pad') + [];
      TrimStartDropsPadding(pad + pad', []);
      assert TrimStart(s) == [];
    } else {
      assert s == pad + (core + pad');
      TrimStartDropsPadding(pad, core + pad');
      TrimEndDropsPadding(core, pad');
    }
  }

  lemma {:induction false} TrimStartDropsPadding(pad: string, rest: string)
    requires AllWhitespace(pad)
    requires rest == [] || !IsWhitespace(rest[0])
    ensures TrimStart(pad + rest) == rest
    decreases |pad|
  {
    if pad != [] {
      assert (pad + rest)[1..] == pad[1..] + rest;
      TrimStartDropsPadding(pad[1..], rest);
    } else {
      assert pad + rest == rest;
    }
  }

  lemma {:induction false} TrimEndDropsPadding(rest: string, pad: string)
    requires AllWhitespace(pad)
    requires rest == [] || !IsWhitespace(rest[|rest| - 1])
    ensures TrimEnd(rest + pad) == rest
    decreases |pad|
  {
    if pad != [] {
      assert (rest + pad)[..|rest + pad| - 1] == rest + pad[..|pad| - 1];
      TrimEndDropsPadding(rest, pad[..|pad| - 1]);
    } else {
      assert rest + pad == rest;
    }
  }

  /** `trim` leaves nothing exactly when the string is all whitespace. */
  lemma TrimEmptyIffAllWhitespace(s: string)
    ensures Trim(s) == [] <==> AllWhitespace(s)
  {
    if AllWhitespace(s) {
      assert s == s + [] + [];
      TrimRemovesPadding(s, [], []);
    }
    if Trim(s) == [] {
      TrimIsWhitespaceBounded(s);
      var start := |s| - |TrimStart(s)|;
      forall i | 0 <= i < |s|
        ensures IsWhitespace(s[i])
      {
        if i < start {
          assert s[..start][i] == s[i];
        } else {
          assert s[start..][i - start] == s[i];
        }
      }
    }
  }

  /** Trimming an already trimmed string changes nothing. */
  lemma TrimIdempotent(s: string)
    ensures Trim(Trim(s)) == Trim(s)
  {
    var r := Trim(s);
    assert r == [] + r + [];
    TrimRemovesPadding([], r, []);
  }
}
