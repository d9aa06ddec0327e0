/** String operations of the JavaScript runtime that the modelled code relies on:
    `trim`, `toLowerCase`, `startsWith`, `endsWith`, `includes`, `replace`,
    `split(...).pop()`, `parseInt` and the decimal rendering of a counter. */
module Text {
  import opened Wrappers

  /** The characters `String.prototype.trim` removes: WhiteSpace and LineTerminator. */
  predicate IsSpace(c: char) {
    c == ' ' || c == '\t' || c == '\n' || c == '\r' || c == '\U{B}' || c == '\U{C}'
    || c == '\U{A0}' || c == '\U{1680}' || ('\U{2000}' <= c <= '\U{200A}')
    || c == '\U{2028}' || c == '\U{2029}' || c == '\U{202F}' || c == '\U{205F}'
    || c == '\U{3000}' || c == '\U{FEFF}'
  }

  function TrimStart(s: string): (r: string)
    ensures |r| <= |s| && r == s[|s| - |r|..]
    ensures r == [] || !IsSpace(r[0])
    ensures forall i :: 0 <= i < |s| - |r| ==> IsSpace(s[i])
  {
    if s != [] && IsSpace(s[0]) then
      var r := TrimStart(s[1..]);
      assert s[1..][|s| - 1 - |r|..] == s[|s| - |r|..];
      assert forall i :: 1 <= i < |s| ==> s[i] == s[1..][i - 1];
      r
    else s
  }

  function TrimEnd(s: string): (r: string)
    ensures |r| <= |s| && r == s[..|r|]
    ensures r == [] || !IsSpace(r[|r| - 1])
    ensures forall i :: |r| <= i < |s| ==> IsSpace(s[i])
  {
    if s != [] && IsSpace(s[|s| - 1]) then TrimEnd(s[..|s| - 1]) else s
  }

  /** A string without white space is its own trim. */
  lemma TrimNoSpace(s: string)
    requires forall i :: 0 <= i < |s| ==> !IsSpace(s[i])
    ensures Trim(s) == s
  {
    assert TrimStart(s) == s;
  }

  /** `s.trim()`. */
  function Trim(s: string): (r: string)
    ensures r == [] || (!IsSpace(r[0]) && !IsSpace(r[|r| - 1]))
  {
    TrimEnd(TrimStart(s))
  }

  /** True when `s.trim()` is empty, i.e. the string is blank. */
  predicate IsBlank(s: string) {
    forall i :: 0 <= i < |s| ==> IsSpace(s[i])
  }

  lemma TrimEmptyIffBlank(s: string)
    ensures Trim(s) == [] <==> IsBlank(s)
  {
  }

  function LowerChar(c: char): (r: char)
    ensures ('A' <= c <= 'Z') == (r != c)
  {
    if 'A' <= c <= 'Z' then (c as int + 32) as char else c
  }

  /** `s.toLowerCase()`, restricted to the ASCII letters. */
  function ToLower(s: string): (r: string)
    ensures |r| == |s|
    ensures forall i :: 0 <= i < |s| ==> r[i] == LowerChar(s[i])
  {
    if s == [] then [] else [LowerChar(s[0])] + ToLower(s[1..])
  }

  /** Lower-casing is idempotent. */
  lemma LowerIdempotent(s: string)
    ensures ToLower(ToLower(s)) == ToLower(s)
  {
  }

  /** Lower-casing and trimming commute: no letter is white space. */
  lemma TrimLower(s: string)
    ensures Trim(ToLower(s)) == ToLower(Trim(s))
  {
    TrimStartLower(s);
    TrimEndLower(TrimStart(s));
  }

  lemma {:induction false} TrimStartLower(s: string)
    ensures TrimStart(ToLower(s)) == ToLower(TrimStart(s))
  {
    if s != [] {
      var l := ToLower(s);
      LowerSpace(s[0]);
      if IsSpace(s[0]) {
        TrimStartLower(s[1..]);
        assert l[1..] == ToLower(s[1..]);
        assert TrimStart(l) == TrimStart(l[1..]);
      } else {
        assert TrimStart(l) == l;
      }
    }
  }

  lemma {:induction false} TrimEndLower(s: string)
    ensures TrimEnd(ToLower(s)) == ToLower(TrimEnd(s))
  {
    if s != [] {
      var l := ToLower(s);
      LowerSpace(s[|s| - 1]);
      if IsSpace(s[|s| - 1]) {
        var t := s[..|s| - 1];
        TrimEndLower(t);
        assert l[..|s| - 1] == ToLower(t);
        assert TrimEnd(l) == TrimEnd(l[..|s| - 1]);
      } else {
        assert TrimEnd(l) == l;
      }
    }
  }

  /** Lower-casing neither makes nor removes white space. */
  lemma LowerSpace(c: char)
    ensures IsSpace(LowerChar(c)) == IsSpace(c)
  {
  }

  predicate StartsWith(s: string, prefix: string) {
    |prefix| <= |s| && s[..|prefix|] == prefix
  }

  predicate EndsWith(s: string, suffix: string) {
    |suffix| <= |s| && s[|s| - |suffix|..] == suffix
  }

  /** `s.includes(t)`: `t` occurs in `s` at some position. */
  predicate Contains(s: string, t: string)
    decreases |s|
  {
    StartsWith(s, t) || (s != [] && Contains(s[1..], t))
  }

  /** A one-character string occurs in `s` exactly when the character does. */
  lemma {:induction false} ContainsChar(s: string, c: char)
    ensures Contains(s, [c]) <==> c in s
    decreases |s|
  {
    if s != [] {
      ContainsChar(s[1..], c);
      assert s == [s[0]] + s[1..];
    }
  }

  /** Where `p` first occurs in `s`, if it occurs at all. */
  function FirstOccurrence(s: string, p: string): (r: Option<nat>)
    ensures r.Some? ==> r.value + |p| <= |s| && s[r.value..r.value + |p|] == p
    ensures r.Some? ==> forall j :: 0 <= j < r.value ==> !StartsWith(s[j..], p)
    ensures r.None? <==> !Contains(s, p)
    decreases |s|
  {
    if StartsWith(s, p) then Some(0)
    else if s == [] then None
    else
      match FirstOccurrence(s[1..], p)
      case None => None
      case Some(i) =>
        OccurrenceShift(s, p, i);
        Some(i + 1)
  }

  /** An occurrence found in `s[1..]` at `i`, with none before it, is one in
      `s` at `i + 1`, with none before it when `s` does not start with `p`. */
  lemma OccurrenceShift(s: string, p: string, i: nat)
    requires s != [] && !StartsWith(s, p)
    requires i + |p| <= |s[1..]| && s[1..][i..i + |p|] == p
    requires forall j :: 0 <= j < i ==> !StartsWith(s[1..][j..], p)
    ensures i + 1 + |p| <= |s| && s[i + 1..i + 1 + |p|] == p
    ensures forall j :: 0 <= j < i + 1 ==> !StartsWith(s[j..], p)
  {
    assert s[i + 1..i + 1 + |p|] == s[1..][i..i + |p|];
    forall j | 1 <= j < i + 1
      ensures !StartsWith(s[j..], p)
    {
      assert s[j..] == s[1..][j - 1..];
    }
  }

  /** An occurrence with none before it is the first one. */
  lemma {:induction false} FirstOccurrenceAt(s: string, p: string, i: nat)
    requires i + |p| <= |s| && s[i..i + |p|] == p
    requires forall j :: 0 <= j < i ==> !StartsWith(s[j..], p)
    ensures FirstOccurrence(s, p) == Some(i)
    decreases i
  {
    if i == 0 {
      assert StartsWith(s, p);
    } else {
      assert s[0..] == s;
      assert s[1..][i - 1..i - 1 + |p|] == p;
      forall j | 0 <= j < i - 1
        ensures !StartsWith(s[1..][j..], p)
      {
        assert s[1..][j..] == s[j + 1..];
      }
      FirstOccurrenceAt(s[1..], p, i - 1);
    }
  }

  /** `s.replace(p, "")` for a non-empty literal pattern: the first
      occurrence of `p` is cut out and everything around it kept; without
      an occurrence `s` is returned unchanged. */
  function RemoveFirst(s: string, p: string): (r: string)
    requires p != []
    ensures FirstOccurrence(s, p).Some? ==>
      var i := FirstOccurrence(s, p).value; r == s[..i] + s[i + |p|..]
    ensures FirstOccurrence(s, p).None? ==> r == s
    decreases |s|
  {
    if StartsWith(s, p) then s[|p|..]
    else if s == [] then []
    else
      var rest := RemoveFirst(s[1..], p);
      RemovedAround(s, p, rest);
      [s[0]] + rest
  }

  /** Cutting the first occurrence out of `s[1..]` and putting `s[0]` back
      cuts the first occurrence out of `s`, when `s` does not start with it. */
  lemma RemovedAround(s: string, p: string, rest: string)
    requires p != [] && s != [] && !StartsWith(s, p)
    requires FirstOccurrence(s[1..], p).Some? ==>
      var i := FirstOccurrence(s[1..], p).value; rest == s[1..][..i] + s[1..][i + |p|..]
    requires FirstOccurrence(s[1..], p).None? ==> rest == s[1..]
    ensures FirstOccurrence(s, p).Some? ==>
      var i := FirstOccurrence(s, p).value; [s[0]] + rest == s[..i] + s[i + |p|..]
    ensures FirstOccurrence(s, p).None? ==> [s[0]] + rest == s
  {
    match FirstOccurrence(s[1..], p)
    case None =>
      assert s == [s[0]] + s[1..];
    case Some(i) =>
      assert FirstOccurrence(s, p) == Some(i + 1);
      CutShift(s, i, i + |p|, rest);
  }

  lemma CutShift(s: string, i: nat, k: nat, rest: string)
    requires s != [] && i <= k <= |s| - 1
    requires rest == s[1..][..i] + s[1..][k..]
    ensures [s[0]] + rest == s[..i + 1] + s[k + 1..]
  {
    assert s[..i + 1] == [s[0]] + s[1..][..i];
    assert s[k + 1..] == s[1..][k..];
  }

  /** `s.split(sep).pop()`: what follows the last `sep`, or all of `s`. */
  function LastSegment(s: string, sep: char): (r: string)
    ensures |r| <= |s| && r == s[|s| - |r|..]
    ensures sep !in r
    ensures |r| < |s| ==> s[|s| - |r| - 1] == sep
  {
    if s == [] || s[|s| - 1] == sep then []
    else LastSegment(s[..|s| - 1], sep) + [s[|s| - 1]]
  }

  /** `s.split(sep)[0]`: what precedes the first `sep`, or all of `s`. */
  function FirstSegment(s: string, sep: char): (r: string)
    ensures |r| <= |s| && r == s[..|r|]
    ensures sep !in r
    ensures |r| < |s| ==> s[|r|] == sep
  {
    if s == [] || s[0] == sep then [] else [s[0]] + FirstSegment(s[1..], sep)
  }

  /** Without a separator, the first segment is the whole string. */
  lemma FirstSegmentWhole(s: string, sep: char)
    requires sep !in s
    ensures FirstSegment(s, sep) == s
  {
    assert |FirstSegment(s, sep)| == |s|;
  }

  // ---- decimal numbers -------------------------------------------------------

  predicate IsDigit(c: char) { '0' <= c <= '9' }

  function DigitChar(d: nat): (c: char)
    requires d < 10
    ensures IsDigit(c) && c as int - '0' as int == d
  {
    ('0' as int + d) as char
  }

  /** The value of a string of decimal digits, read left to right. */
  function DigitsValue(s: string): nat
    requires forall i :: 0 <= i < |s| ==> IsDigit(s[i])
  {
    if s == [] then 0
    else
      assert IsDigit(s[|s| - 1]);
      DigitsValue(s[..|s| - 1]) * 10 + (s[|s| - 1] as int - '0' as int)
  }

  /** `n.toString()` for a natural number. */
  function NatToString(n: nat): (r: string)
    ensures r != [] && forall i :: 0 <= i < |r| ==> IsDigit(r[i])
  {
    if n < 10 then [DigitChar(n)] else NatToString(n / 10) + [DigitChar(n % 10)]
  }

  lemma {:induction false} NatToStringRoundTrip(n: nat)
    ensures DigitsValue(NatToString(n)) == n
  {
    if n >= 10 {
      NatToStringRoundTrip(n / 10);
      var s := NatToString(n);
      assert s[..|s| - 1] == NatToString(n / 10);
    }
  }

  /** Distinct numbers are rendered as distinct strings. */
  lemma NatToStringInjective(m: nat, n: nat)
    ensures NatToString(m) == NatToString(n) <==> m == n
  {
    NatToStringRoundTrip(m);
    NatToStringRoundTrip(n);
  }

  /** The longest prefix of `s` made of decimal digits. */
  function DigitPrefix(s: string): (r: string)
    ensures |r| <= |s| && r == s[..|r|]
    ensures forall i :: 0 <= i < |r| ==> IsDigit(s[i])
    ensures |r| < |s| ==> !IsDigit(s[|r|])
  {
    if s != [] && IsDigit(s[0]) then [s[0]] + DigitPrefix(s[1..]) else []
  }

  /** `parseInt(s, 10)`: leading white space, an optional sign, then the
      longest run of digits; `None` stands for `NaN` (no digit follows). */
  function ParseInt(s: string): (r: Option<int>)
    ensures r.Some? <==> DigitPrefix(UnsignedPart(TrimStart(s))) != []
  {
    ParseSigned(TrimStart(s))
  }

  /** The number at the very start of `t`: an optional sign and the longest
      run of digits after it. */
  function ParseSigned(t: string): (r: Option<int>)
    ensures r.Some? <==> DigitPrefix(UnsignedPart(t)) != []
  {
    var digits := DigitPrefix(UnsignedPart(t));
    if digits == [] then None
    else if t[0] == '-' then Some(-(DigitsValue(digits) as int))
    else Some(DigitsValue(digits))
  }

  function UnsignedPart(t: string): (r: string)
    ensures |r| <= |t|
  {
    if t != [] && (t[0] == '-' || t[0] == '+') then t[1..] else t
  }

  /** Parsing the rendering of a number gives the number back. */
  lemma ParseIntOfNatToString(n: nat)
    ensures ParseInt(NatToString(n)) == Some(n)
  {
    var s := NatToString(n);
    assert TrimStart(s) == s;
    assert UnsignedPart(s) == s;
    DigitPrefixOfDigits(s);
    NatToStringRoundTrip(n);
  }

  lemma {:induction false} DigitPrefixOfDigits(s: string)
    requires forall i :: 0 <= i < |s| ==> IsDigit(s[i])
    ensures DigitPrefix(s) == s
  {
    if s != [] {
      DigitPrefixOfDigits(s[1..]);
    }
  }

  /** White space in front of a string that does not start with it is
      trimmed away entirely. */
  lemma {:induction false} TrimStartBlank(w: string, s: string)
    requires IsBlank(w) && (s == [] || !IsSpace(s[0]))
    ensures TrimStart(w + s) == s
  {
    if w != [] {
      assert (w + s)[0] == w[0] && (w + s)[1..] == w[1..] + s;
      TrimStartBlank(w[1..], s);
    } else {
      assert w + s == s;
    }
  }

  /** The digit run stops at the first character that is not a digit. */
  lemma {:induction false} DigitPrefixStops(d: string, t: string)
    requires forall i :: 0 <= i < |d| ==> IsDigit(d[i])
    requires t == [] || !IsDigit(t[0])
    ensures DigitPrefix(d + t) == d
  {
    if d != [] {
      assert (d + t)[0] == d[0] && (d + t)[1..] == d[1..] + t;
      DigitPrefixStops(d[1..], t);
    } else {
      assert d + t == t;
    }
  }

  predicate AllZeros(z: string) {
    forall i :: 0 <= i < |z| ==> z[i] == '0'
  }

  /** Leading zeros do not change the value of a digit string. */
  lemma {:induction false} LeadingZerosValue(z: string, d: string)
    requires AllZeros(z) && forall i :: 0 <= i < |d| ==> IsDigit(d[i])
    ensures DigitsValue(z + d) == DigitsValue(d)
    decreases |d|, |z|
  {
    if d != [] {
      var s := z + d;
      assert s[..|s| - 1] == z + d[..|d| - 1];
      assert s[|s| - 1] == d[|d| - 1];
      LeadingZerosValue(z, d[..|d| - 1]);
    } else if z != [] {
      assert z + d == z;
      assert z[..|z| - 1] + d == z[..|z| - 1];
      LeadingZerosValue(z[..|z| - 1], d);
    } else {
      assert z + d == [];
    }
  }

  /** White space in front of the text does not change what `parseInt` reads. */
  lemma ParseIntSkipsBlank(w: string, u: string)
    requires IsBlank(w) && (u == [] || !IsSpace(u[0]))
    ensures ParseInt(w + u) == ParseInt(u)
  {
    TrimStartBlank(w, u);
    TrimStartBlank([], u);
    assert [] + u == u;
  }

  lemma SignedValue(c: char, u: string, d: string)
    requires c == '-' || c == '+'
    requires d != [] && DigitPrefix(u) == d
    ensures ParseSigned([c] + u) == Some(if c == '-' then -(DigitsValue(d) as int) else DigitsValue(d) as int)
  {
    SignDropped(c, u);
  }

  lemma SignDropped(c: char, u: string)
    requires c == '-' || c == '+'
    ensures ([c] + u)[0] == c && UnsignedPart([c] + u) == u
  {
    assert ([c] + u)[1..] == u;
  }

  /** `parseInt` reads the number a text begins with: white space in front
      and leading zeros are skipped, and whatever follows the digits is
      ignored... */
  lemma ParseIntOfText(w: string, z: string, n: nat, t: string)
    requires IsBlank(w) && AllZeros(z)
    requires t == [] || !IsDigit(t[0])
    ensures ParseInt(w + z + NatToString(n) + t) == Some(n as int)
  {
    var d := z + NatToString(n);
    Regroup(w, z, NatToString(n), t);
    DigitRunOf(z, n, t);
    TrimStartBlank(w, d + t);
    UnsignedValue(d + t, d);
  }

  /** ...and one `-` or `+` before the digits gives the number its sign. */
  lemma ParseIntOfSignedText(w: string, c: char, z: string, n: nat, t: string)
    requires IsBlank(w) && AllZeros(z) && (c == '-' || c == '+')
    requires t == [] || !IsDigit(t[0])
    ensures ParseInt(w + [c] + z + NatToString(n) + t) == Some(if c == '-' then -(n as int) else n as int)
  {
    var e := (z + NatToString(n)) + t;
    SignedRegroup(w, c, z, NatToString(n), t);
    SignedDigits(c, z, n, t);
    BlankThenSigned(w, [c] + e);
  }

  /** A sign, then zeros and the digits of `n`, then no digit: `n` with that sign. */
  lemma SignedDigits(c: char, z: string, n: nat, t: string)
    requires AllZeros(z) && (c == '-' || c == '+')
    requires t == [] || !IsDigit(t[0])
    ensures ParseSigned([c] + ((z + NatToString(n)) + t)) == Some(if c == '-' then -(n as int) else n as int)
  {
    var d := z + NatToString(n);
    DigitRunOf(z, n, t);
    SignedOfRun(c, d + t, d, n);
  }

  lemma SignedOfRun(c: char, e: string, d: string, n: nat)
    requires c == '-' || c == '+'
    requires d != [] && DigitPrefix(e) == d && DigitsValue(d) == n
    ensures ParseSigned([c] + e) == Some(if c == '-' then -(n as int) else n as int)
  {
    SignedValue(c, e, d);
  }

  lemma BlankThenSigned(w: string, u: string)
    requires IsBlank(w) && u != [] && !IsSpace(u[0])
    ensures ParseInt(w + u) == ParseSigned(u)
  {
    TrimStartBlank(w, u);
  }

  lemma SignedRegroup(w: string, c: char, z: string, s: string, t: string)
    ensures w + [c] + z + s + t == w + ([c] + ((z + s) + t))
  {
  }

  lemma Regroup(a: string, b: string, c: string, e: string)
    ensures a + b + c + e == a + ((b + c) + e)
  {
  }

  /** Zeros then the rendering of `n`, followed by no digit, is a digit run
      worth `n`. */
  lemma DigitRunOf(z: string, n: nat, t: string)
    requires AllZeros(z)
    requires t == [] || !IsDigit(t[0])
    ensures var d := z + NatToString(n); d != [] && DigitPrefix(d + t) == d && DigitsValue(d) == n
  {
    var s := NatToString(n);
    var d := z + s;
    assert forall i :: 0 <= i < |d| ==> IsDigit(d[i]) by {
      forall i | 0 <= i < |d| ensures IsDigit(d[i]) {
        if i < |z| { assert d[i] == z[i]; } else { assert d[i] == s[i - |z|]; }
      }
    }
    DigitPrefixStops(d, t);
    LeadingZerosValue(z, s);
    NatToStringRoundTrip(n);
  }

  lemma UnsignedValue(u: string, d: string)
    requires d != [] && DigitPrefix(u) == d
    ensures ParseSigned(u) == Some(DigitsValue(d) as int)
  {
    assert IsDigit(u[0]);
  }
}
