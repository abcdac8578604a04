/**
  The parts of Go's `strings` and `strconv` packages that the loader and the
  creator use, over strings as sequences of characters.
 */
module Text {
  import opened Wrappers

  // ---------------------------------------------------------------------------
  // strings.HasPrefix / HasSuffix / TrimSuffix / Contains

  predicate HasPrefix(s: string, prefix: string) {
    |prefix| <= |s| && s[..|prefix|] == prefix
  }

  predicate HasSuffix(s: string, suffix: string) {
    |suffix| <= |s| && s[|s| - |suffix|..] == suffix
  }

  /** `s` without `suffix` when it ends with it, else `s` unchanged. */
  function TrimSuffix(s: string, suffix: string): (r: string)
    ensures HasSuffix(s, suffix) ==> r + suffix == s
    ensures !HasSuffix(s, suffix) ==> r == s
  {
    if HasSuffix(s, suffix) then s[..|s| - |suffix|] else s
  }

  /** `sub` occurs somewhere in `s`. */
  predicate Contains(s: string, sub: string)
    decreases |s|
  {
    HasPrefix(s, sub) || (s != [] && Contains(s[1..], sub))
  }

  /** Whatever surrounds it, `sub` is contained in `a + sub + c`. */
  lemma {:induction false} ContainsInfix(a: string, sub: string, c: string)
    ensures Contains(a + sub + c, sub)
    decreases |a|
  {
    if a == [] {
      assert a + sub + c == sub + c;
      assert (sub + c)[..|sub|] == sub;
    } else {
      ContainsInfix(a[1..], sub, c);
      assert (a + sub + c)[1..] == a[1..] + sub + c;
    }
  }

  /**
    A prefix that does not hold the first character of `sub` cannot hold the
    start of an occurrence, so it does not change whether `sub` occurs.
   */
  lemma {:induction false} ContainsSkip(a: string, b: string, sub: string)
    requires sub != [] && sub[0] !in a
    ensures Contains(a + b, sub) == Contains(b, sub)
    decreases |a|
  {
    if a != [] {
      assert (a + b)[0] == a[0];
      assert !HasPrefix(a + b, sub);
      assert (a + b)[1..] == a[1..] + b;
      ContainsSkip(a[1..], b, sub);
    } else {
      assert a + b == b;
    }
  }

  // ---------------------------------------------------------------------------
  // strings.Index (for one character), strings.Split and strings.Join

  /** The position of the first `c` in `s`, if any. */
  function IndexOf(s: string, c: char): (r: Option<nat>)
    ensures r.None? <==> c !in s
    ensures r.Some? ==> r.value < |s| && s[r.value] == c && c !in s[..r.value]
  {
    if s == [] then None
    else if s[0] == c then Some(0)
    else
      var rest := IndexOf(s[1..], c);
      assert s == [s[0]] + s[1..];
      if rest.None? then None
      else
        assert s[..rest.value + 1] == [s[0]] + s[1..][..rest.value];
        Some(rest.value + 1)
  }

  /**
    The pieces of `s` between occurrences of `sep`, as `strings.Split` gives
    them for a one-character separator: one more piece than there are
    separators, empty pieces kept.
   */
  function Split(s: string, sep: char): (parts: seq<string>)
    ensures |parts| >= 1
    decreases |s|
  {
    match IndexOf(s, sep)
    case None => [s]
    case Some(i) => [s[..i]] + Split(s[i + 1..], sep)
  }

  /** The pieces with `sep` between consecutive ones, as `strings.Join` gives them. */
  function Join(parts: seq<string>, sep: char): string {
    if parts == [] then ""
    else if |parts| == 1 then parts[0]
    else parts[0] + [sep] + Join(parts[1..], sep)
  }

  /** Joining the pieces of a split gives the original text back. */
  lemma {:induction false} JoinSplit(s: string, sep: char)
    ensures Join(Split(s, sep), sep) == s
    decreases |s|
  {
    match IndexOf(s, sep)
    case None =>
    case Some(i) =>
      var rest := Split(s[i + 1..], sep);
      JoinSplit(s[i + 1..], sep);
      assert Split(s, sep) == [s[..i]] + rest;
      assert s == s[..i] + [sep] + s[i + 1..];
  }

  /**
    The first piece is the text before the first `sep` (all of `s` when it has
    none), and joining the other pieces gives the text after the first `sep`.
   */
  lemma SplitAtFirst(s: string, sep: char)
    ensures IndexOf(s, sep).None? ==> Split(s, sep) == [s]
    ensures IndexOf(s, sep).Some? ==>
      var i := IndexOf(s, sep).value;
      Split(s, sep)[0] == s[..i] && |Split(s, sep)| > 1 &&
      Join(Split(s, sep)[1..], sep) == s[i + 1..]
  {
    match IndexOf(s, sep)
    case None =>
    case Some(i) =>
      JoinSplit(s[i + 1..], sep);
      assert Split(s, sep)[1..] == Split(s[i + 1..], sep);
  }

  // ---------------------------------------------------------------------------
  // strconv.Atoi and fmt's %d on a 64-bit integer

  const MaxInt64: int := 0x7fff_ffff_ffff_ffff
  const MinInt64: int := -0x8000_0000_0000_0000

  predicate IsDigit(c: char) {
    '0' as int <= c as int <= '9' as int
  }

  predicate AllDigits(s: string) {
    forall i :: 0 <= i < |s| ==> IsDigit(s[i])
  }

  /** The decimal value of a string of digits. */
  function DigitsValue(s: string): nat
    requires AllDigits(s)
  {
    if s == [] then 0
    else
      assert IsDigit(s[|s| - 1]);
      10 * DigitsValue(s[..|s| - 1]) + (s[|s| - 1] as int - '0' as int)
  }

  /** Saturation at the bounds of a 64-bit signed integer. */
  function Clamp(n: int): (r: int)
    ensures MinInt64 <= r <= MaxInt64
    ensures MinInt64 <= n <= MaxInt64 ==> r == n
  {
    if n < MinInt64 then MinInt64 else if n > MaxInt64 then MaxInt64 else n
  }

  const MaxUint64: int := 0xffff_ffff_ffff_ffff

  /** What `strconv.ParseUint` in base 10 makes of a string. */
  datatype Parsed = Value(n: nat) | SyntaxError | RangeError

  /**
    `strconv.ParseUint`'s loop in base 10, from the value `acc` of the digits
    read so far: a non-digit is a syntax error, and a digit that takes the
    value past the unsigned 64-bit range is a range error at once, whatever
    follows it.
   */
  function ParseDigits(s: string, acc: nat): (r: Parsed)
    requires acc <= MaxUint64
    ensures r.Value? ==> acc <= r.n <= MaxUint64
    decreases |s|
  {
    if s == [] then Value(acc)
    else if !IsDigit(s[0]) then SyntaxError
    else
      var n := 10 * acc + (s[0] as int - '0' as int);
      if n > MaxUint64 then RangeError else ParseDigits(s[1..], n)
  }

  /** `strconv.ParseUint(s, 10, 64)`: the empty string is a syntax error. */
  function ParseUint(s: string): Parsed {
    if s == [] then SyntaxError else ParseDigits(s, 0)
  }

  /**
    The integer `strconv.Atoi` returns for `s` when its error is ignored, as
    `strconv.ParseInt` computes it: an optional sign, then `ParseUint` of the
    rest. A syntax error gives 0; a range error, or a value beyond the signed
    64-bit range, saturates at the bound of the sign.
   */
  function Atoi(s: string): (n: int)
    ensures MinInt64 <= n <= MaxInt64
  {
    var signed := |s| > 0 && (s[0] == '+' || s[0] == '-');
    var negative := signed && s[0] == '-';
    var digits := if signed then s[1..] else s;
    match ParseUint(digits)
    case SyntaxError => 0
    case RangeError => if negative then MinInt64 else MaxInt64
    case Value(u) => if negative then Clamp(-(u as int)) else Clamp(u)
  }

  /** Parsing `a + b` is parsing `a`, then going on with `b` from its value. */
  lemma {:induction false} ParseDigitsConcat(a: string, b: string, acc: nat)
    requires acc <= MaxUint64
    ensures ParseDigits(a + b, acc) ==
            match ParseDigits(a, acc)
            case Value(x) => ParseDigits(b, x)
            case e => e
    decreases |a|
  {
    if a != [] {
      assert (a + b)[0] == a[0];
      assert (a + b)[1..] == a[1..] + b;
      if IsDigit(a[0]) {
        var n := 10 * acc + (a[0] as int - '0' as int);
        if n <= MaxUint64 {
          ParseDigitsConcat(a[1..], b, n);
        }
      }
    } else {
      assert a + b == b;
    }
  }

  /**
    On a string of digits, `ParseDigits` gives their decimal value when it
    fits in 64 unsigned bits, and a range error when it does not.
   */
  lemma {:induction false} ParseDigitsValue(s: string)
    requires AllDigits(s)
    ensures ParseDigits(s, 0) == if DigitsValue(s) <= MaxUint64 then Value(DigitsValue(s)) else RangeError
    decreases |s|
  {
    if s != [] {
      var front, c := s[..|s| - 1], s[|s| - 1];
      assert s == front + [c];
      assert AllDigits(front) by {
        forall i | 0 <= i < |front| ensures IsDigit(front[i]) { assert front[i] == s[i]; }
      }
      ParseDigitsValue(front);
      ParseDigitsConcat(front, [c], 0);
      assert [c][1..] == [];
    }
  }

  /** A string of digits, after an optional sign, is read as its signed value, saturated. */
  lemma AtoiDigits(sign: string, digits: string)
    requires sign == "" || sign == "+" || sign == "-"
    requires digits != [] && AllDigits(digits)
    ensures Atoi(sign + digits) == Clamp(if sign == "-" then -(DigitsValue(digits) as int) else DigitsValue(digits))
  {
    ParseDigitsValue(digits);
    if sign == "" {
      assert sign + digits == digits;
      assert !(digits[0] == '+' || digits[0] == '-') by { assert IsDigit(digits[0]); }
    } else {
      assert (sign + digits)[0] == sign[0];
      assert (sign + digits)[1..] == digits;
    }
  }

  /**
    Digits whose value exceeds the unsigned 64-bit range saturate `Atoi`
    at the bound of the sign, whatever follows them.
   */
  lemma AtoiOverflowSaturates(sign: string, digits: string, rest: string)
    requires sign == "" || sign == "+" || sign == "-"
    requires AllDigits(digits) && DigitsValue(digits) > MaxUint64
    ensures Atoi(sign + digits + rest) == if sign == "-" then MinInt64 else MaxInt64
  {
    ParseDigitsValue(digits);
    ParseDigitsConcat(digits, rest, 0);
    assert digits != [];
    if sign == "" {
      assert sign + digits + rest == digits + rest;
      assert (digits + rest)[0] == digits[0];
      assert !(digits[0] == '+' || digits[0] == '-') by { assert IsDigit(digits[0]); }
    } else {
      assert (sign + digits + rest)[0] == sign[0];
      assert (sign + digits + rest)[1..] == digits + rest;
    }
  }

  /**
    A non-digit after an optional sign and digits that fit in the unsigned
    64-bit range makes `Atoi` give 0.
   */
  lemma AtoiSyntaxError(sign: string, digits: string, c: char, rest: string)
    requires sign == "" || sign == "+" || sign == "-"
    requires AllDigits(digits) && DigitsValue(digits) <= MaxUint64 && !IsDigit(c)
    requires sign == "" && digits == [] ==> c != '+' && c != '-'
    ensures Atoi(sign + digits + [c] + rest) == 0
  {
    ParseDigitsValue(digits);
    ParseDigitsConcat(digits, [c] + rest, 0);
    var t := sign + digits + [c] + rest;
    if sign == "" {
      assert t == digits + ([c] + rest);
      assert t[0] == (if digits == [] then c else digits[0]);
      if digits != [] {
        assert !(digits[0] == '+' || digits[0] == '-') by { assert IsDigit(digits[0]); }
      }
    } else {
      assert t[0] == sign[0];
      assert t[1..] == digits + ([c] + rest);
    }
  }

  function DigitChar(d: nat): (c: char)
    requires d < 10
    ensures IsDigit(c)
  {
    ('0' as int + d) as char
  }

  /** The decimal digits of `n`, most significant first, without leading zeros. */
  function NatDigits(n: nat): (r: string)
    ensures r != [] && AllDigits(r)
  {
    if n < 10 then [DigitChar(n)] else NatDigits(n / 10) + [DigitChar(n % 10)]
  }

  /** `fmt.Sprintf("%d", n)`: the digits of `n`, after a `-` when it is negative. */
  function Itoa(n: int): string {
    if n < 0 then "-" + NatDigits(-n) else NatDigits(n)
  }

  lemma {:induction false} DigitsValueOfNatDigits(n: nat)
    ensures DigitsValue(NatDigits(n)) == n
  {
    if n >= 10 {
      var front := NatDigits(n / 10);
      var s := front + [DigitChar(n % 10)];
      assert s[..|s| - 1] == front;
      DigitsValueOfNatDigits(n / 10);
    }
  }

  /** Printing a 64-bit integer with %d and parsing it back with Atoi gives it back. */
  lemma AtoiItoa(n: int)
    requires MinInt64 <= n <= MaxInt64
    ensures Atoi(Itoa(n)) == n
  {
    if n < 0 {
      DigitsValueOfNatDigits(-n);
      AtoiDigits("-", NatDigits(-n));
    } else {
      DigitsValueOfNatDigits(n);
      AtoiDigits("", NatDigits(n));
      assert "" + NatDigits(n) == NatDigits(n);
    }
  }

  /** The printed form of an integer holds only digits and a leading `-`. */
  lemma ItoaCharacters(n: int, c: char)
    requires !IsDigit(c) && c != '-'
    ensures c !in Itoa(n)
  {
    var d := NatDigits(if n < 0 then -n else n);
    assert c !in d by {
      forall i | 0 <= i < |d| ensures d[i] != c {
        assert IsDigit(d[i]);
      }
    }
  }
}
