/** The JavaScript string operations the services rely on, over strings of
    Unicode code points: the `\s` class and `String.prototype.trim`, the
    lower-casing used for file extensions, `lastIndexOf`, `split` and the
    decimal rendering `String(n)` of an integer. */
module JsString {

  /** The characters matched by the regular-expression class `\s`, which are
      also exactly the ones `trim` removes: ECMAScript WhiteSpace (tab,
      vertical tab, form feed, space, no-break space, the byte-order mark and
      the other space separators) and LineTerminator (LF, CR, U+2028, U+2029). */
  predicate IsSpace(c: char)
  {
    || c == '\t' || c == '\n' || c == '\U{000B}' || c == '\U{000C}' || c == '\r' || c == ' '
    || c == '\U{00A0}' || c == '\U{1680}' || ('\U{2000}' <= c <= '\U{200A}')
    || c == '\U{2028}' || c == '\U{2029}' || c == '\U{202F}' || c == '\U{205F}'
    || c == '\U{3000}' || c == '\U{FEFF}'
  }

  predicate IsDigit(c: char)
  {
    '0' <= c <= '9'
  }

  /** No white space at either end. */
  predicate Trimmed(s: string)
  {
    s == [] || (!IsSpace(s[0]) && !IsSpace(s[|s| - 1]))
  }

  /** Drops the leading run of white space. */
  function TrimStart(s: string): (r: string)
    ensures |r| <= |s|
  {
    if s != [] && IsSpace(s[0]) then TrimStart(s[1..]) else s
  }

  /** What `TrimStart` leaves is a suffix not starting with white space,
      and all it drops is white space. */
  lemma {:induction false} TrimStartShape(s: string)
    ensures var r := TrimStart(s);
            && r == s[|s| - |r|..]
            && (r == [] || !IsSpace(r[0]))
            && forall k :: 0 <= k < |s| - |r| ==> IsSpace(s[k])
  {
    if s != [] && IsSpace(s[0]) {
      TrimStartShape(s[1..]);
      assert forall k :: 1 <= k < |s| ==> s[k] == s[1..][k - 1];
    }
  }

  /** Leading white space in front of text is all `TrimStart` looks at:
      what follows the first non-space character is kept as it is. */
  lemma {:induction false} TrimStartAppend(s: string, z: string)
    requires s != [] && !IsSpace(s[|s| - 1])
    ensures TrimStart(s + z) == TrimStart(s) + z
  {
    if IsSpace(s[0]) {
      assert (s + z)[1..] == s[1..] + z;
      TrimStartAppend(s[1..], z);
    }
  }

  /** `TrimStart` of white space followed by text is the text. */
  lemma {:induction false} TrimStartOfSpaces(w: string, y: string)
    requires forall k :: 0 <= k < |w| ==> IsSpace(w[k])
    requires y == [] || !IsSpace(y[0])
    ensures TrimStart(w + y) == y
  {
    if w == [] {
      assert w + y == y;
    } else {
      assert (w + y)[1..] == w[1..] + y;
      TrimStartOfSpaces(w[1..], y);
    }
  }

  /** A string ending in a non-space keeps that last character. */
  lemma TrimStartKeepsLast(s: string)
    requires s != [] && !IsSpace(s[|s| - 1])
    ensures TrimStart(s) != [] && TrimStart(s)[|TrimStart(s)| - 1] == s[|s| - 1]
  {
    TrimStartShape(s);
  }

  /** Drops the trailing run of white space. */
  function TrimEnd(s: string): (r: string)
    ensures |r| <= |s|
  {
    if s != [] && IsSpace(s[|s| - 1]) then TrimEnd(s[..|s| - 1]) else s
  }

  /** What `TrimEnd` leaves is a prefix not ending in white space, and all
      it drops is white space. */
  lemma {:induction false} TrimEndShape(s: string)
    ensures var r := TrimEnd(s);
            && r == s[..|r|]
            && (r == [] || !IsSpace(r[|r| - 1]))
            && forall k :: |r| <= k < |s| ==> IsSpace(s[k])
  {
    if s != [] && IsSpace(s[|s| - 1]) {
      TrimEndShape(s[..|s| - 1]);
    }
  }

  /** `s.trim()`. */
  function Trim(s: string): string
  {
    TrimEnd(TrimStart(s))
  }

  /** What `trim` leaves is the infix of `s` that starts after the leading
      white space, with no white space at either end, everything cut off on
      both sides being white space. */
  lemma TrimShape(s: string)
    ensures Trimmed(Trim(s))
    ensures CutFrom(s, |s| - |TrimStart(s)|, Trim(s))
  {
    var t := TrimStart(s);
    var r := TrimEnd(t);
    var i := |s| - |t|;
    TrimStartShape(s);
    TrimEndShape(t);
    InfixOfSuffix(s, i, t, r);
  }

  /** A prefix `r` of a suffix `t` of `s`, with white space only around it,
      is a cut of `s`. */
  lemma InfixOfSuffix(s: string, i: int, t: string, r: string)
    requires 0 <= i <= |s| && t == s[i..] && (forall k :: 0 <= k < i ==> IsSpace(s[k]))
    requires t == [] || !IsSpace(t[0])
    requires |r| <= |t| && r == t[..|r|] && (forall k :: |r| <= k < |t| ==> IsSpace(t[k]))
    requires r == [] || !IsSpace(r[|r| - 1])
    ensures Trimmed(r) && CutFrom(s, i, r)
  {
    assert forall k :: i + |r| <= k < |s| ==> s[k] == t[k - i];
  }

  /** `r` is the infix of `s` starting at `i`, and all of `s` around it is
      white space. */
  predicate CutFrom(s: string, i: int, r: string)
  {
    && 0 <= i <= |s| - |r| && r == s[i..i + |r|]
    && (forall k :: 0 <= k < i ==> IsSpace(s[k]))
    && (forall k :: i + |r| <= k < |s| ==> IsSpace(s[k]))
  }

  /** A cut splits `s` into white space, `r` and white space. */
  lemma CutFromSplits(s: string, i: int, r: string, pre: string, post: string)
    requires CutFrom(s, i, r) && pre == s[..i] && post == s[i + |r|..]
    ensures s == pre + r + post
    ensures forall k :: 0 <= k < |pre| ==> IsSpace(pre[k])
    ensures forall k :: 0 <= k < |post| ==> IsSpace(post[k])
  {
    assert forall k :: 0 <= k < |post| ==> post[k] == s[i + |r| + k];
  }

  /** `trim` changes nothing on a string without white space at its ends. */
  lemma TrimOfTrimmed(s: string)
    requires Trimmed(s)
    ensures Trim(s) == s
  {
  }

  /** The lower-casing `toLowerCase` performs, restricted to the characters
      it maps to a single ASCII letter: A-Z, and KELVIN SIGN (U+212A), which
      becomes 'k'. Every other character is kept. Where `toLowerCase` maps
      one of those elsewhere, the image is either no ASCII letter or, for
      U+0130, the two characters `i` and U+0307; either way the lower-cased
      word still holds a non-ASCII character, so a comparison against ASCII
      lower-case words decides the same. */
  function LowerChar(c: char): char
  {
    if 'A' <= c <= 'Z' then (c as int + 32) as char
    else if c == '\U{212A}' then 'k'
    else c
  }

  function Lower(s: string): (r: string)
    ensures |r| == |s|
    ensures forall i :: 0 <= i < |s| ==> r[i] == LowerChar(s[i])
  {
    seq(|s|, i requires 0 <= i < |s| => LowerChar(s[i]))
  }

  /** ASCII upper-casing, used to state that the extension test ignores case. */
  function UpperChar(c: char): char
  {
    if 'a' <= c <= 'z' then (c as int - 32) as char else c
  }

  function Upper(s: string): (r: string)
    ensures |r| == |s|
    ensures forall i :: 0 <= i < |s| ==> r[i] == UpperChar(s[i])
  {
    seq(|s|, i requires 0 <= i < |s| => UpperChar(s[i]))
  }

  /** `s.lastIndexOf(c)` for a one-character needle: -1 when `c` does not
      occur, otherwise the position of its last occurrence. */
  function LastIndexOf(s: string, c: char): (r: int)
    ensures -1 <= r < |s|
    ensures r >= 0 ==> s[r] == c
    ensures forall k :: r < k < |s| ==> s[k] != c
  {
    if s == [] then -1
    else if s[|s| - 1] == c then |s| - 1
    else LastIndexOf(s[..|s| - 1], c)
  }

  /** `s.split(sep)` for a one-character separator: the pieces between the
      separators, in order; there is always at least one piece. */
  function Split(s: string, sep: char): (r: seq<string>)
    ensures |r| >= 1
    ensures forall i :: 0 <= i < |r| ==> sep !in r[i]
  {
    if s == [] then [""]
    else
      var rest := Split(s[1..], sep);
      if s[0] == sep then [""] + rest
      else [[s[0]] + rest[0]] + rest[1..]
  }

  /** `pieces.join(sep)`, the inverse of `Split`. */
  function Join(pieces: seq<string>, sep: char): string
  {
    if pieces == [] then ""
    else if |pieces| == 1 then pieces[0]
    else pieces[0] + [sep] + Join(pieces[1..], sep)
  }

  /** Splitting loses nothing: joining the pieces back gives the input. */
  lemma {:induction false} JoinSplit(s: string, sep: char)
    ensures Join(Split(s, sep), sep) == s
  {
    if s != [] {
      var rest := Split(s[1..], sep);
      JoinSplit(s[1..], sep);
      if s[0] == sep {
        assert Split(s, sep) == [""] + rest;
        assert s == [sep] + s[1..];
      } else {
        var r := Split(s, sep);
        assert r == [[s[0]] + rest[0]] + rest[1..];
        if |rest| == 1 {
          assert Join(r, sep) == [s[0]] + rest[0];
          assert Join(rest, sep) == rest[0];
        } else {
          assert r[1..] == rest[1..];
          assert Join(r, sep) == [s[0]] + rest[0] + [sep] + Join(rest[1..], sep);
          assert Join(rest, sep) == rest[0] + [sep] + Join(rest[1..], sep);
        }
        assert s == [s[0]] + s[1..];
      }
    }
  }

  function DigitChar(d: int): (c: char)
    requires 0 <= d < 10
    ensures IsDigit(c) && c as int - '0' as int == d
  {
    (d + '0' as int) as char
  }

  /** Decimal digits of a natural number, without leading zeros. */
  function ShowNat(n: nat): (r: string)
    ensures |r| >= 1
    ensures forall i :: 0 <= i < |r| ==> IsDigit(r[i])
    ensures r[|r| - 1] == DigitChar(n % 10)
  {
    if n < 10 then [DigitChar(n)] else ShowNat(n / 10) + [DigitChar(n % 10)]
  }

  /** `String(n)` for an integer-valued number. */
  function Show(n: int): (r: string)
    ensures |r| >= 1
  {
    if n < 0 then "-" + ShowNat(-n) else ShowNat(n)
  }

  /** Different numbers are written differently, so comparing `String(a)`
      with `String(b)` is comparing `a` with `b`. */
  lemma {:induction false} ShowNatInjective(a: nat, b: nat)
    requires ShowNat(a) == ShowNat(b)
    ensures a == b
  {
    var ra, rb := ShowNat(a), ShowNat(b);
    assert a % 10 == b % 10 by {
      assert DigitChar(a % 10) == DigitChar(b % 10);
    }
    if a >= 10 && b >= 10 {
      assert ShowNat(a / 10) == ra[..|ra| - 1];
      assert ShowNat(b / 10) == rb[..|rb| - 1];
      ShowNatInjective(a / 10, b / 10);
    }
  }

  /** Only negative numbers are written with a leading sign. */
  lemma ShowSign(n: int)
    ensures Show(n)[0] == '-' <==> n < 0
  {
    if n >= 0 {
      assert IsDigit(ShowNat(n)[0]);
    }
  }

  lemma ShowInjective(a: int, b: int)
    ensures Show(a) == Show(b) <==> a == b
  {
    if Show(a) == Show(b) {
      ShowSign(a);
      ShowSign(b);
      if a < 0 {
        NegativeShowInjective(a, b);
      } else {
        ShowNatInjective(a, b);
      }
    }
  }

  lemma NegativeShowInjective(a: int, b: int)
    requires a < 0 && b < 0 && Show(a) == Show(b)
    ensures a == b
  {
    var na, nb := -a, -b;
    assert Show(a) == "-" + ShowNat(na);
    assert Show(b) == "-" + ShowNat(nb);
    assert ShowNat(na) == Show(a)[1..];
    ShowNatInjective(na, nb);
  }
}
