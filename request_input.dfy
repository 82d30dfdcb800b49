/**
  The two input normalisations of the command-line driver
  (backend/app.py lines 211 and 214-219): the comma-separated mode list
  becomes a list of trimmed, non-empty mode names, with the four known
  modes as the fallback, and the duration ceiling becomes "no limit"
  unless it is strictly positive.
 */
module RequestInput {
  import opened Wrappers

  type Mode = string

  const DEFAULT_MODES: seq<Mode> := ["driving", "transit", "walking", "bicycling"]

  /** Python's `str.isspace` for one character: what `str.strip()` removes. */
  predicate IsSpace(c: char) {
    if c <= ' ' then ('\t' <= c <= '\r') || '\U{1C}' <= c
    else if c < '\U{85}' then false
    else (c == '\U{85}' || c == '\U{A0}' || c == '\U{1680}'
          || ('\U{2000}' <= c <= '\U{200A}') || c == '\U{2028}' || c == '\U{2029}'
          || c == '\U{202F}' || c == '\U{205F}' || c == '\U{3000}')
  }

  predicate Blank(s: string) {
    forall k :: 0 <= k < |s| ==> IsSpace(s[k])
  }

  /** Number of leading whitespace characters. */
  function LeftEnd(s: string): (i: nat)
    ensures i <= |s|
    ensures forall k :: 0 <= k < i ==> IsSpace(s[k])
    ensures i < |s| ==> !IsSpace(s[i])
  {
    if s == [] || !IsSpace(s[0]) then 0
    else 1 + LeftEnd(s[1..])
  }

  /** End of `s` once the trailing whitespace after position `lo` is dropped. */
  function RightEnd(s: string, lo: nat): (j: nat)
    requires lo <= |s|
    ensures lo <= j <= |s|
    ensures forall k :: j <= k < |s| ==> IsSpace(s[k])
    ensures lo < j ==> !IsSpace(s[j - 1])
    decreases |s| - lo
  {
    if lo == |s| || !IsSpace(s[|s| - 1]) then |s|
    else RightEnd(s[..|s| - 1], lo)
  }

  /** `s.strip()`: `s` with its leading and trailing whitespace removed. */
  function Strip(s: string): (t: string)
    ensures exists i, j :: (0 <= i <= j <= |s| && t == s[i..j]
                            && (forall k :: 0 <= k < i ==> IsSpace(s[k]))
                            && (forall k :: j <= k < |s| ==> IsSpace(s[k])))
    ensures t == [] || (!IsSpace(t[0]) && !IsSpace(t[|t| - 1]))
  {
    var i := LeftEnd(s);
    var j := RightEnd(s, i);
    s[i..j]
  }

  /** `s.split(sep)`: the pieces between the separators, empty ones included. */
  function Split(s: string, sep: char): (parts: seq<string>)
    ensures |parts| > 0
    ensures forall p :: p in parts ==> sep !in p
  {
    if s == [] then [[]]
    else
      var rest := Split(s[1..], sep);
      if s[0] == sep then [[]] + rest
      else [[s[0]] + rest[0]] + rest[1..]
  }

  /** The pieces put back together with the separator between them (`sep.join(parts)`). */
  function Join(parts: seq<string>, sep: char): string
    requires |parts| > 0
  {
    if |parts| == 1 then parts[0] else parts[0] + [sep] + Join(parts[1..], sep)
  }

  /** The stripped pieces that are not empty, in order. */
  function Tokens(parts: seq<string>): (toks: seq<string>)
    ensures |toks| <= |parts|
  {
    if parts == [] then []
    else
      var t := Strip(parts[0]);
      (if t != [] then [t] else []) + Tokens(parts[1..])
  }

  /** The mode list requested on line 211: the comma-separated tokens, or the defaults. */
  function ParseModes(input: string): (modes: seq<Mode>)
    ensures |modes| > 0
  {
    var toks := Tokens(Split(input, ','));
    if toks == [] then DEFAULT_MODES else toks
  }

  /**
    The ceiling of lines 214-219: `parsed` is the value `float(...)` read,
    or None when it raised `ValueError`; a value `<= 0` means no limit.
   */
  function NormaliseCeiling(parsed: Option<real>): (ceiling: Option<real>)
    ensures ceiling.Some? <==> parsed.Some? && parsed.value > 0.0
    ensures ceiling.Some? ==> ceiling == parsed
  {
    match parsed
    case None => None
    case Some(v) => if v > 0.0 then Some(v) else None
  }

  /** Splitting and re-joining on the same separator gives back the input. */
  lemma {:induction false} JoinSplit(s: string, sep: char)
    ensures Join(Split(s, sep), sep) == s
  {
    if s != [] {
      JoinSplit(s[1..], sep);
      var rest := Split(s[1..], sep);
      if s[0] != sep && |rest| > 1 {
        assert Split(s, sep)[1..] == rest[1..];
      }
    }
  }

  /** Stripping is idempotent. */
  lemma StripStrip(s: string)
    ensures Strip(Strip(s)) == Strip(s)
  {
    var t := Strip(s);
    if t != [] {
      assert LeftEnd(t) == 0;
      assert RightEnd(t, 0) == |t|;
    }
  }

  /** The tokens of two lists of pieces are the tokens of each, in order. */
  lemma {:induction false} TokensAppend(a: seq<string>, b: seq<string>)
    ensures Tokens(a + b) == Tokens(a) + Tokens(b)
  {
    if a == [] {
      assert a + b == b;
    } else {
      var t := Strip(a[0]);
      var head := if t != [] then [t] else [];
      assert (a + b)[0] == a[0];
      assert (a + b)[1..] == a[1..] + b;
      TokensAppend(a[1..], b);
      calc {
        Tokens(a + b);
        head + Tokens(a[1..] + b);
        head + (Tokens(a[1..]) + Tokens(b));
        (head + Tokens(a[1..])) + Tokens(b);
        Tokens(a) + Tokens(b);
      }
    }
  }

  /** A token is exactly the stripped form of some piece that is not all whitespace. */
  lemma {:induction false} TokensMembers(parts: seq<string>, t: string)
    ensures t in Tokens(parts) <==> t != [] && exists p :: p in parts && Strip(p) == t
  {
    if parts != [] {
      TokensMembers(parts[1..], t);
      if t != [] && Strip(parts[0]) != t && (exists p :: p in parts && Strip(p) == t) {
        var p :| p in parts && Strip(p) == t;
        assert p in parts[1..];
      }
    }
  }

  /** Stripping empties a string exactly when it is all whitespace. */
  lemma StripEmpty(s: string)
    ensures Strip(s) == [] <==> Blank(s)
  {
    var i := LeftEnd(s);
    var j := RightEnd(s, i);
    if i < j {
      assert s[i..j][0] == s[i];
    }
  }

  /** There are no tokens exactly when every piece is blank. */
  lemma {:induction false} TokensEmpty(parts: seq<string>)
    ensures Tokens(parts) == [] <==> forall p :: p in parts ==> Blank(p)
  {
    if parts != [] {
      StripEmpty(parts[0]);
      TokensEmpty(parts[1..]);
      assert forall p :: p in parts <==> p == parts[0] || p in parts[1..];
    }
  }

  /** Stripping only removes characters. */
  lemma StripDropsNothingNew(s: string, c: char)
    requires c !in s
    ensures c !in Strip(s)
  {
    var i := LeftEnd(s);
    var j := RightEnd(s, i);
    forall k | 0 <= k < j - i ensures s[i..j][k] != c {
      assert s[i..j][k] == s[i + k];
    }
  }

  /** Every token is non-empty, already trimmed, and free of the separator. */
  lemma {:induction false} TokenShape(parts: seq<string>, sep: char, t: string)
    requires forall p :: p in parts ==> sep !in p
    requires t in Tokens(parts)
    ensures t != [] && sep !in t && Strip(t) == t
  {
    var h := Strip(parts[0]);
    if h != [] && t == h {
      StripStrip(parts[0]);
      StripDropsNothingNew(parts[0], sep);
    } else {
      assert t in Tokens(parts[1..]);
      TokenShape(parts[1..], sep, t);
    }
  }

  /** A string that neither starts nor ends with whitespace is left alone by stripping. */
  lemma StripTrimmed(s: string)
    requires s != [] && !IsSpace(s[0]) && !IsSpace(s[|s| - 1])
    ensures Strip(s) == s
  {
    assert LeftEnd(s) == 0 && RightEnd(s, 0) == |s|;
  }

  /** The four default modes are themselves well-formed tokens. */
  lemma DefaultModesShape()
    ensures forall m :: m in DEFAULT_MODES ==> m != [] && ',' !in m && Strip(m) == m
  {
    DefaultModesTrimmed();
    DefaultModesNoComma();
  }

  /** Stripping a default mode leaves it as it is. */
  lemma DefaultModesTrimmed()
    ensures forall m :: m in DEFAULT_MODES ==> Strip(m) == m
  {
    StripTrimmed("driving");
    StripTrimmed("transit");
    StripTrimmed("walking");
    StripTrimmed("bicycling");
  }

  /** No default mode is empty or holds a comma. */
  lemma DefaultModesNoComma()
    ensures forall m :: m in DEFAULT_MODES ==> m != [] && ',' !in m
  {
  }

  /**
    What line 211 yields: non-empty, trimmed mode names without commas; the
    defaults when no comma-separated piece holds anything but whitespace, and
    otherwise exactly the trimmed non-blank pieces.
   */
  lemma ParseModesSpec(input: string)
    ensures (forall p :: p in Split(input, ',') ==> Blank(p)) ==> ParseModes(input) == DEFAULT_MODES
    ensures (exists p :: p in Split(input, ',') && !Blank(p)) ==>
      forall m :: m in ParseModes(input) <==> m != [] && exists p :: p in Split(input, ',') && Strip(p) == m
    ensures forall m :: m in ParseModes(input) ==> m != [] && ',' !in m && Strip(m) == m
  {
    var parts := Split(input, ',');
    TokensEmpty(parts);
    if Tokens(parts) == [] {
      DefaultModesShape();
    } else {
      forall m | m in Tokens(parts) ensures m != [] && ',' !in m && Strip(m) == m {
        TokenShape(parts, ',', m);
      }
      forall m ensures m in Tokens(parts) <==> m != [] && exists p :: p in parts && Strip(p) == m {
        TokensMembers(parts, m);
      }
    }
  }
}
