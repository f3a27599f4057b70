/** The two Python string built-ins the controller relies on: `str.strip()`
    with no argument (every input field goes through it) and `int(s)` on a
    string (the port parse in `validate_port`). */
module PyText {
  import opened Wrappers

  /** `c.isspace()` in Python 3: the ASCII controls TAB to CR and FS to US,
      SPACE, NEL, NO-BREAK SPACE and the Unicode space separators. */
  predicate IsSpace(c: char) {
    var n := c as int;
    if n <= 32 then 9 <= n <= 13 || 28 <= n
    else if n < 0x85 then false
    else n in {0x85, 0xA0, 0x1680, 0x2028, 0x2029, 0x202F, 0x205F, 0x3000} || 0x2000 <= n <= 0x200A
  }

  predicate AllSpace(s: string) {
    forall k :: 0 <= k < |s| ==> IsSpace(s[k])
  }

  /** Neither end of `s` is white space. */
  predicate Trimmed(s: string) {
    s == [] || (!IsSpace(s[0]) && !IsSpace(s[|s| - 1]))
  }

  /** `s.lstrip()`: `s` without its white-space prefix (which suffix of `s`
      it is, is stated by `StripStartSuffix`). */
  function StripStart(s: string): (r: string)
    ensures |r| <= |s|
    ensures r != [] ==> !IsSpace(r[0])
  {
    if s != [] && IsSpace(s[0]) then StripStart(s[1..]) else s
  }

  /** `s.rstrip()`: `s` without its white-space suffix (which prefix of `s`
      it is, is stated by `StripEndPrefix`). */
  function StripEnd(s: string): (r: string)
    ensures |r| <= |s|
    ensures r != [] ==> !IsSpace(r[|r| - 1]) && r[0] == s[0]
  {
    if s != [] && IsSpace(s[|s| - 1]) then StripEnd(s[..|s| - 1]) else s
  }

  /** `s.strip()`: neither end of the result is white space. What it removes
      and keeps is stated by `StripRemovesOnlyPadding` and `StripBlank`. */
  function Strip(s: string): (r: string)
    ensures Trimmed(r)
  {
    StripEnd(StripStart(s))
  }

  /** `lstrip` keeps a suffix of `s`. */
  lemma {:induction false} StripStartSuffix(s: string)
    ensures StripStart(s) == s[|s| - |StripStart(s)|..]
  {
    if s != [] && IsSpace(s[0]) {
      StripStartSuffix(s[1..]);
    }
  }

  /** `rstrip` keeps a prefix of `s`. */
  lemma {:induction false} StripEndPrefix(s: string)
    ensures StripEnd(s) == s[..|StripEnd(s)|]
  {
    if s != [] && IsSpace(s[|s| - 1]) {
      StripEndPrefix(s[..|s| - 1]);
    }
  }

  /** What `lstrip` removes is white space. */
  lemma {:induction false} StripStartRemovesSpace(s: string)
    ensures AllSpace(s[..|s| - |StripStart(s)|])
  {
    if s != [] && IsSpace(s[0]) {
      StripStartRemovesSpace(s[1..]);
      StripStartSuffix(s[1..]);
      var n := |s| - |StripStart(s)|;
      assert s[..n] == [s[0]] + s[1..][..n - 1];
    }
  }

  /** What `rstrip` removes is white space. */
  lemma {:induction false} StripEndRemovesSpace(s: string)
    ensures AllSpace(s[|StripEnd(s)|..])
  {
    if s != [] && IsSpace(s[|s| - 1]) {
      var init := s[..|s| - 1];
      StripEndRemovesSpace(init);
      StripEndPrefix(init);
      assert s[|StripEnd(s)|..] == init[|StripEnd(init)|..] + [s[|s| - 1]];
    }
  }

  /** What `strip` removes is white space at the two ends of `s`, and what it
      keeps is the contiguous rest of `s`. */
  lemma StripRemovesOnlyPadding(s: string)
    ensures exists i :: 0 <= i <= |s| - |Strip(s)| && Strip(s) == s[i..i + |Strip(s)|]
                        && AllSpace(s[..i]) && AllSpace(s[i + |Strip(s)|..])
  {
    var t := StripStart(s);
    var r := Strip(s);
    var i := |s| - |t|;
    StripStartRemovesSpace(s);
    StripEndRemovesSpace(t);
    StripStartSuffix(s);
    StripEndPrefix(t);
    assert t == s[i..];
    assert r == s[i..i + |r|];
    assert s[i + |r|..] == t[|r|..];
  }

  /** `strip` yields the empty string exactly for a blank string. */
  lemma StripBlank(s: string)
    ensures Strip(s) == [] <==> AllSpace(s)
  {
    var t := StripStart(s);
    StripStartRemovesSpace(s);
    StripStartSuffix(s);
    if Strip(s) == [] {
      StripEndRemovesSpace(t);
      assert t == s[|s| - |t|..];
      AllSpaceConcat(s[..|s| - |t|], t);
      assert s == s[..|s| - |t|] + t;
    }
  }

  lemma AllSpaceConcat(a: string, b: string)
    requires AllSpace(a) && AllSpace(b)
    ensures AllSpace(a + b)
  {
    forall k | 0 <= k < |a + b| ensures IsSpace((a + b)[k]) {
      if k < |a| {
        assert (a + b)[k] == a[k];
      } else {
        assert (a + b)[k] == b[k - |a|];
      }
    }
  }

  /** Stripping a trimmed string changes nothing. */
  lemma StripTrimmed(s: string)
    requires Trimmed(s)
    ensures Strip(s) == s
  {
    assert StripStart(s) == s;
    assert StripEnd(s) == s;
  }

  /** `strip` is idempotent. */
  lemma StripIdempotent(s: string)
    ensures Strip(Strip(s)) == Strip(s)
  {
    StripTrimmed(Strip(s));
  }

  predicate IsDigit(c: char) {
    '0' <= c <= '9'
  }

  predicate AllDigits(s: string) {
    forall k :: 0 <= k < |s| ==> IsDigit(s[k])
  }

  /** The digit string Python's `int` accepts after the sign: digits, with
      single underscores allowed between two digits ("65_432"). */
  predicate DigitGroups(s: string) {
    && |s| > 0
    && IsDigit(s[0]) && IsDigit(s[|s| - 1])
    && (forall k :: 0 <= k < |s| ==> IsDigit(s[k]) || s[k] == '_')
    && !HasDoubleUnderscore(s)
  }

  /** Two underscores in a row somewhere in `s`. */
  predicate HasDoubleUnderscore(s: string) {
    |s| >= 2 && ((s[0] == '_' && s[1] == '_') || HasDoubleUnderscore(s[1..]))
  }

  lemma {:induction false} DigitsHaveNoDoubleUnderscore(s: string)
    requires AllDigits(s)
    ensures !HasDoubleUnderscore(s)
  {
    if |s| >= 2 {
      DigitsHaveNoDoubleUnderscore(s[1..]);
    }
  }

  /** The number the digits of `g` spell, most significant first, with the
      underscores between groups skipped. */
  function GroupsNumber(g: string): nat {
    if g == [] then 0
    else if g[|g| - 1] == '_' then GroupsNumber(g[..|g| - 1])
    else GroupsNumber(g[..|g| - 1]) * 10 + DigitValue(g[|g| - 1])
  }

  function DigitValue(c: char): nat {
    if IsDigit(c) then c as int - '0' as int else 0
  }

  /** The number of digits in `g`; underscores are not counted, leading
      zeros are. */
  function DigitCount(g: string): (n: nat)
    ensures n <= |g|
  {
    if g == [] then 0
    else DigitCount(g[..|g| - 1]) + (if IsDigit(g[|g| - 1]) then 1 else 0)
  }

  /** CPython's default limit on the digits `int` reads from a string
      (`sys.int_info.default_max_str_digits`); a longer digit string raises
      `ValueError`. */
  const MaxStrDigits: nat := 4300

  function Pow10(k: nat): (p: nat)
    ensures p >= 1
  {
    if k == 0 then 1 else 10 * Pow10(k - 1)
  }

  lemma {:induction false} Pow10Monotone(a: nat, b: nat)
    requires a <= b
    ensures Pow10(a) <= Pow10(b)
  {
    if a < b {
      Pow10Monotone(a, b - 1);
    }
  }

  /** Digit groups with `k` digits spell a number below `10^k`. */
  lemma {:induction false} GroupsNumberBound(g: string)
    requires forall k :: 0 <= k < |g| ==> IsDigit(g[k]) || g[k] == '_'
    ensures GroupsNumber(g) < Pow10(DigitCount(g))
  {
    if g != [] {
      GroupsNumberBound(g[..|g| - 1]);
    }
  }

  /** The value of a digit-group string, `None` when it is not one or has
      more digits than the limit allows. */
  function GroupsValue(g: string): Option<nat> {
    if DigitGroups(g) && DigitCount(g) <= MaxStrDigits then
      Some(GroupsNumber(g))
    else None
  }

  /** The ASCII information separators FS, GS, RS and US. `str.isspace`
      counts them as white space; `int` does not skip them, because it skips
      only the C-locale white space among ASCII characters. */
  predicate IsInfoSeparator(c: char) {
    28 <= c as int <= 31
  }

  /** Some character of `s` is an information separator. */
  predicate HasInfoSeparator(s: string) {
    s != [] && (IsInfoSeparator(s[0]) || HasInfoSeparator(s[1..]))
  }

  lemma {:induction false} DigitsHaveNoInfoSeparator(s: string)
    requires AllDigits(s)
    ensures !HasInfoSeparator(s)
  {
    if s != [] {
      DigitsHaveNoInfoSeparator(s[1..]);
    }
  }

  /** `int(s)` for a `str` argument in base 10, `None` standing for the
      `ValueError` it raises. An information separator anywhere makes it
      fail; otherwise it skips the same surrounding white space as
      `strip` and reads the rest by `ParseSigned`. */
  function ParseInt(s: string): Option<int> {
    if HasInfoSeparator(s) then None else ParseSigned(Strip(s))
  }

  /** One optional sign, then digit groups. */
  function ParseSigned(t: string): Option<int> {
    if |t| > 0 && (t[0] == '+' || t[0] == '-') then
      match GroupsValue(t[1..])
      case Some(v) => Some(if t[0] == '-' then -(v as int) else v)
      case None => None
    else
      match GroupsValue(t)
      case Some(v) => Some(v)
      case None => None
  }

  /** The digit limit caps a digit-group value below `10^MaxStrDigits`. */
  lemma GroupsValueBounded(g: string)
    requires GroupsValue(g).Some?
    ensures GroupsValue(g).value < Pow10(MaxStrDigits)
  {
    GroupsNumberBound(g);
    Pow10Monotone(DigitCount(g), MaxStrDigits);
  }

  /** Whatever `int` reads from a string is below `10^MaxStrDigits` in
      magnitude. */
  lemma ParseIntBounded(s: string)
    requires ParseInt(s).Some?
    ensures -(Pow10(MaxStrDigits) as int) < ParseInt(s).value < Pow10(MaxStrDigits)
  {
    var t := Strip(s);
    if |t| > 0 && (t[0] == '+' || t[0] == '-') {
      GroupsValueBounded(t[1..]);
    } else {
      GroupsValueBounded(t);
    }
  }

  /** `int` of an empty or all-white-space string raises `ValueError`. */
  lemma ParseIntBlank(s: string)
    requires AllSpace(s)
    ensures ParseInt(s) == None
  {
    StripBlank(s);
  }

  /** The decimal digits of `n`: what `str(n)` gives (`str` itself refuses
      results longer than `MaxStrDigits`). */
  function Decimal(n: nat): (s: string)
    ensures |s| > 0 && AllDigits(s)
  {
    if n < 10 then ['0' + n as char]
    else Decimal(n / 10) + ['0' + (n % 10) as char]
  }

  lemma {:induction false} DecimalValue(n: nat)
    ensures GroupsNumber(Decimal(n)) == n
  {
    if n >= 10 {
      var s := Decimal(n);
      assert s[..|s| - 1] == Decimal(n / 10);
      DecimalValue(n / 10);
    }
  }

  lemma {:induction false} DigitCountOfDigits(s: string)
    requires AllDigits(s)
    ensures DigitCount(s) == |s|
  {
    if s != [] {
      DigitCountOfDigits(s[..|s| - 1]);
    }
  }

  /** A plain digit string is one digit group, of the obvious value, as long
      as it is within the digit limit. */
  lemma GroupsOfDigits(s: string)
    requires |s| > 0 && AllDigits(s)
    ensures GroupsValue(s) == if |s| <= MaxStrDigits then Some(GroupsNumber(s)) else None
  {
    DigitsHaveNoDoubleUnderscore(s);
    DigitCountOfDigits(s);
    assert DigitGroups(s);
  }

  /** A string free of separators that `strip` leaves alone is read by
      `ParseSigned` directly. */
  lemma ParseOfStripped(s: string)
    requires Strip(s) == s && !HasInfoSeparator(s)
    ensures ParseInt(s) == ParseSigned(s)
  {
  }

  /** A plain digit string parses to its value, unless it has more digits
      than the limit, leading zeros included. */
  lemma ParseDigitString(s: string)
    requires |s| > 0 && AllDigits(s)
    ensures ParseInt(s) == if |s| <= MaxStrDigits then Some(GroupsNumber(s)) else None
  {
    assert IsDigit(s[0]) && IsDigit(s[|s| - 1]);
    StripTrimmed(s);
    DigitsHaveNoInfoSeparator(s);
    ParseOfStripped(s);
    GroupsOfDigits(s);
  }

  /** A minus sign before a plain digit string negates its value, with the
      same digit limit. */
  lemma ParseNegatedDigitString(s: string)
    requires |s| > 0 && AllDigits(s)
    ensures ParseInt("-" + s) == if |s| <= MaxStrDigits then Some(-(GroupsNumber(s) as int)) else None
  {
    var m := "-" + s;
    NegatedDigitsPlain(s);
    assert m[0] == '-' && m[1..] == s;
    ParseNegatedPlain(m, s);
  }

  /** A stripped, separator-free minus sign followed by the digit string `s`
      is read by `int` as the negated value of `s`. */
  lemma ParseNegatedPlain(t: string, s: string)
    requires |s| > 0 && AllDigits(s) && |t| == |s| + 1 && t[0] == '-' && t[1..] == s
    requires Strip(t) == t && !HasInfoSeparator(t)
    ensures ParseInt(t) == if |s| <= MaxStrDigits then Some(-(GroupsNumber(s) as int)) else None
  {
    ParseOfStripped(t);
    NegatedDigits(t);
  }

  /** A minus sign followed by a plain digit string has nothing for `strip`
      to remove and no information separator. */
  lemma NegatedDigitsPlain(s: string)
    requires |s| > 0 && AllDigits(s)
    ensures Strip("-" + s) == "-" + s && !HasInfoSeparator("-" + s)
  {
    var m := "-" + s;
    assert m[0] == '-' && m[1..] == s;
    assert m[|m| - 1] == s[|s| - 1];
    StripTrimmed(m);
    DigitsHaveNoInfoSeparator(s);
  }

  /** A minus sign followed by a plain digit string reads as the negated
      value of the digits, within the digit limit. */
  lemma NegatedDigits(t: string)
    requires |t| > 1 && t[0] == '-' && AllDigits(t[1..])
    ensures ParseSigned(t) == if |t| - 1 <= MaxStrDigits then Some(-(GroupsNumber(t[1..]) as int)) else None
  {
    GroupsOfDigits(t[1..]);
  }

  /** `int(str(n)) == n` whenever `n` has at most `MaxStrDigits` digits; a
      longer digit string is refused. */
  lemma ParseDecimal(n: nat)
    ensures ParseInt(Decimal(n)) == if |Decimal(n)| <= MaxStrDigits then Some(n) else None
  {
    DecimalValue(n);
    ParseDigitString(Decimal(n));
  }

  /** `int("-" + str(n)) == -n` whenever `n` has at most `MaxStrDigits`
      digits; a longer digit string is refused. */
  lemma ParseNegatedDecimal(n: nat)
    ensures ParseInt("-" + Decimal(n)) == if |Decimal(n)| <= MaxStrDigits then Some(-(n as int)) else None
  {
    var s := Decimal(n);
    DecimalValue(n);
    ParseNegatedDigitString(s);
  }
}
