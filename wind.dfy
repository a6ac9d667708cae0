/**
 * The clean-up of the `strength` column of the wind data set: a strength such as "1-2" or
 * "6+" is first rewritten by the regular expression `.*\-` (everything up to and including the
 * last '-'), then by `\D` (every non-digit), both replaced by the empty string, and the
 * column is then converted to a number. Strings are sequences of characters.
 */
module Wind {

  const Dash: char := '-'
  const Newline: char := '\n'

  /** The characters `\d` matches in this model: the ASCII decimal digits. */
  predicate IsDigit(c: char) {
    '0' <= c <= '9'
  }

  predicate AllDigits(s: string) {
    forall c :: c in s ==> IsDigit(c)
  }

  // ---------------------------------------------------------------------------
  // Step 1: re.sub(r'.*\-', '', s)
  // ---------------------------------------------------------------------------

  /**
   * What step 1 leaves of a single line: the part after the line's last '-', or the whole
   * line if it has none. The result is a suffix of the line, holds no '-', and is either the
   * whole line or preceded by a '-' in it.
   */
  function AfterLastDash(line: string): (r: string)
    ensures |r| <= |line| && r == line[|line| - |r|..]
    ensures Dash !in r
    ensures |r| < |line| ==> line[|line| - |r| - 1] == Dash
  {
    if line == [] then []
    else if line[|line| - 1] == Dash then []
    else AfterLastDash(line[..|line| - 1]) + [line[|line| - 1]]
  }

  /** The index of the first newline of s. */
  function FirstNewline(s: string): (i: nat)
    requires Newline in s
    ensures i < |s| && s[i] == Newline && Newline !in s[..i]
  {
    if s[0] == Newline then 0
    else
      assert Newline in s[1..] by { var j :| 0 <= j < |s| && s[j] == Newline; assert s[1..][j - 1] == Newline; }
      var j := FirstNewline(s[1..]);
      assert s[..j + 1] == [s[0]] + s[1..][..j];
      j + 1
  }

  /**
   * Step 1 on a whole string. Python's `.` does not match a newline, so the greedy `.*\-`
   * removes, on each line separately, everything up to and including that line's last '-'.
   */
  function StripThroughDash(s: string): string
    decreases |s|
  {
    if Newline !in s then AfterLastDash(s)
    else
      var i := FirstNewline(s);
      AfterLastDash(s[..i]) + [Newline] + StripThroughDash(s[i + 1..])
  }

  /** On a single line, step 1 keeps exactly the suffix that follows the last '-'. */
  lemma StripSingleLine(s: string, k: nat)
    requires Newline !in s
    requires k < |s| && s[k] == Dash && Dash !in s[k + 1..]
    ensures StripThroughDash(s) == s[k + 1..]
  {
    var r := AfterLastDash(s);
    var j := |s| - |r|;
    forall t | j <= t < |s|
      ensures s[t] != Dash
    {
      assert s[t] == r[t - j];
    }
    forall t | k + 1 <= t < |s|
      ensures s[t] != Dash
    {
      assert s[t] == s[k + 1..][t - (k + 1)];
    }
    assert j == k + 1;
  }

  /** Step 1 unfolded at the first newline. */
  lemma StripAtNewline(s: string) returns (i: nat)
    requires Newline in s
    ensures i < |s| && s[i] == Newline && Newline !in s[..i]
    ensures StripThroughDash(s) == AfterLastDash(s[..i]) + [Newline] + StripThroughDash(s[i + 1..])
  {
    i := FirstNewline(s);
  }

  /**
   * Step 1 works line by line: for any first line `a` and any rest `b`, the rewrite of
   * `a + "\n" + b` is the rewrite of the line `a`, the newline, and the rewrite of `b`.
   */
  lemma StripLines(a: string, b: string)
    requires Newline !in a
    ensures StripThroughDash(a + [Newline] + b) == AfterLastDash(a) + [Newline] + StripThroughDash(b)
  {
    var s := a + [Newline] + b;
    assert s[|a|] == Newline;
    var i := StripAtNewline(s);
    assert i <= |a| by {
      assert forall j :: 0 <= j < i ==> s[..i][j] == s[j];
    }
    assert i >= |a| by {
      assert forall j :: 0 <= j < |a| ==> s[j] == a[j];
    }
    assert s[..i] == a;
    assert s[i + 1..] == b;
  }

  /** Step 1 leaves no '-' anywhere in the string. */
  lemma {:induction false} StripLeavesNoDash(s: string)
    ensures Dash !in StripThroughDash(s)
    decreases |s|
  {
    if Newline in s {
      var i := StripAtNewline(s);
      StripLeavesNoDash(s[i + 1..]);
      NotInConcat(Dash, AfterLastDash(s[..i]) + [Newline], StripThroughDash(s[i + 1..]));
    }
  }

  lemma NotInConcat(c: char, a: string, b: string)
    requires c !in a && c !in b
    ensures c !in a + b
  {
  }

  /** A line without '-' is unchanged by step 1. */
  lemma AfterLastDashWithoutDash(line: string)
    requires Dash !in line
    ensures AfterLastDash(line) == line
  {
    assert forall t :: 0 <= t < |line| ==> line[t] != Dash;
  }

  /** A string without '-' is unchanged by step 1. */
  lemma {:induction false} StripWithoutDash(s: string)
    requires Dash !in s
    ensures StripThroughDash(s) == s
    decreases |s|
  {
    if Newline !in s {
      AfterLastDashWithoutDash(s);
    } else {
      var i := StripAtNewline(s);
      var line, rest := s[..i], s[i + 1..];
      NotInParts(Dash, s, i);
      StripWithoutDash(rest);
      AfterLastDashWithoutDash(line);
      SplitAround(s, i);
    }
  }

  /** A string is the part before position i, the character at i, and the part after it. */
  lemma SplitAround(s: string, i: nat)
    requires i < |s|
    ensures s == s[..i] + [s[i]] + s[i + 1..]
  {
  }

  /** A character missing from a string is missing from both sides of any split point. */
  lemma NotInParts(c: char, s: string, i: nat)
    requires c !in s && i < |s|
    ensures c !in s[..i] && c !in s[i + 1..]
  {
    var line, rest := s[..i], s[i + 1..];
    forall t | 0 <= t < |line| ensures line[t] != c { assert line[t] == s[t]; }
    forall t | 0 <= t < |rest| ensures rest[t] != c { assert rest[t] == s[i + 1 + t]; }
  }

  /** Step 1 is idempotent. */
  lemma StripIdempotent(s: string)
    ensures StripThroughDash(StripThroughDash(s)) == StripThroughDash(s)
  {
    StripLeavesNoDash(s);
    StripWithoutDash(StripThroughDash(s));
  }

  // ---------------------------------------------------------------------------
  // Step 2: re.sub(r'\D', '', s)
  // ---------------------------------------------------------------------------

  /** Step 2: every non-digit removed. */
  function KeepDigits(s: string): (r: string)
    ensures AllDigits(r)
    ensures |r| <= |s|
  {
    if s == [] then []
    else
      var c := s[|s| - 1];
      KeepDigits(s[..|s| - 1]) + if IsDigit(c) then [c] else []
  }

  /** Step 2 works on each part of a string independently, so it keeps the digits' order. */
  lemma {:induction false} KeepDigitsAppend(a: string, b: string)
    ensures KeepDigits(a + b) == KeepDigits(a) + KeepDigits(b)
    decreases |b|
  {
    if b != [] {
      var n := |b| - 1;
      assert (a + b)[..|a + b| - 1] == a + b[..n];
      KeepDigitsAppend(a, b[..n]);
    } else {
      assert a + b == a;
    }
  }

  /** Step 2 keeps every digit as often as it occurs, and nothing else. */
  lemma {:induction false} KeepDigitsCounts(s: string)
    ensures forall c :: multiset(KeepDigits(s))[c] == if IsDigit(c) then multiset(s)[c] else 0
  {
    if s != [] {
      var n := |s| - 1;
      KeepDigitsCounts(s[..n]);
      assert s == s[..n] + [s[n]];
    }
  }

  /** A string of digits only is unchanged by step 2; hence step 2 is idempotent. */
  lemma {:induction false} KeepDigitsOfDigits(s: string)
    requires AllDigits(s)
    ensures KeepDigits(s) == s
  {
    if s != [] {
      var n := |s| - 1;
      assert s[n] in s;
      assert AllDigits(s[..n]) by { forall c | c in s[..n] ensures c in s { } }
      KeepDigitsOfDigits(s[..n]);
      assert s == s[..n] + [s[n]];
    }
  }

  /** A string without digits is erased by step 2. */
  lemma KeepDigitsOfNonDigits(s: string)
    requires forall c :: c in s ==> !IsDigit(c)
    ensures KeepDigits(s) == []
  {
    var r := KeepDigits(s);
    KeepDigitsCounts(s);
    assert multiset(r) == multiset{};
  }

  lemma KeepDigitsIdempotent(s: string)
    ensures KeepDigits(KeepDigits(s)) == KeepDigits(s)
  {
    KeepDigitsOfDigits(KeepDigits(s));
  }

  // ---------------------------------------------------------------------------
  // Step 3: astype('float') on the cleaned strings
  // ---------------------------------------------------------------------------

  /** The natural number a decimal digit string denotes. */
  function DigitsValue(s: string): nat
    requires AllDigits(s)
  {
    if s == [] then 0
    else
      assert s[|s| - 1] in s;
      DigitsValue(s[..|s| - 1]) * 10 + (s[|s| - 1] as int - '0' as int)
  }

  /** The outcome of converting one cleaned strength: a number, or Python's ValueError. */
  datatype Parsed = Number(value: nat) | ValueError(text: string)

  datatype Option<T> = None | Some(value: T)

  /**
   * `float(s)` for a string of digits: the empty string cannot be converted; any other digit
   * string denotes the natural number its digits spell.
   */
  function ParseDigits(s: string): (r: Parsed)
    requires AllDigits(s)
    ensures r.ValueError? <==> s == []
    ensures r.Number? ==> r.value == DigitsValue(s)
  {
    if s == [] then ValueError(s) else Number(DigitsValue(s))
  }

  /** 10 to the power n. */
  function Pow10(n: nat): (p: nat)
    ensures p > 0
  {
    if n == 0 then 1 else 10 * Pow10(n - 1)
  }

  /** Digit strings are positional: a prefix counts its value times ten per following digit. */
  lemma {:induction false} DigitsValueAppend(a: string, b: string)
    requires AllDigits(a) && AllDigits(b)
    ensures AllDigits(a + b)
    ensures DigitsValue(a + b) == DigitsValue(a) * Pow10(|b|) + DigitsValue(b)
    decreases |b|
  {
    AllDigitsAppend(a, b);
    if b == [] {
      assert a + b == a;
    } else {
      var n := |b| - 1;
      var front := b[..n];
      AllDigitsPrefix(b, n);
      DigitsValueAppend(a, front);
      assert (a + b)[..|a + b| - 1] == a + front;
      var d := b[n] as int - '0' as int;
      assert DigitsValue(a + b) == DigitsValue(a + front) * 10 + d;
      assert DigitsValue(b) == DigitsValue(front) * 10 + d;
      ShiftDigit(DigitsValue(a), Pow10(n), DigitsValue(front), d);
    }
  }

  lemma AllDigitsAppend(a: string, b: string)
    requires AllDigits(a) && AllDigits(b)
    ensures AllDigits(a + b)
  {
    forall c | c in a + b ensures IsDigit(c) {
      assert c in a || c in b;
    }
  }

  lemma AllDigitsPrefix(s: string, n: nat)
    requires AllDigits(s) && n <= |s|
    ensures AllDigits(s[..n])
  {
    forall c | c in s[..n] ensures c in s { }
  }

  /** Appending a digit after x * p + y multiplies the place value of x by ten. */
  lemma ShiftDigit(x: int, p: int, y: int, d: int)
    ensures (x * p + y) * 10 + d == x * (10 * p) + (y * 10 + d)
  {
    calc {
      (x * p + y) * 10 + d;
      x * p * 10 + y * 10 + d;
      { assert x * p * 10 == x * (10 * p); }
      x * (10 * p) + (y * 10 + d);
    }
  }

  /** Leading zeros do not change the number: float("05") is 5. */
  lemma LeadingZeroIgnored(s: string)
    requires AllDigits(s)
    ensures AllDigits(['0'] + s)
    ensures DigitsValue(['0'] + s) == DigitsValue(s)
  {
    var zero := ['0'];
    assert AllDigits(zero) by { forall c | c in zero ensures IsDigit(c) { } }
    DigitsValueAppend(zero, s);
    assert DigitsValue(zero) == 0 by { assert zero[..0] == []; }
  }

  /** The character of a decimal digit. */
  function DigitChar(d: nat): (c: char)
    requires d < 10
    ensures IsDigit(c) && c as int - '0' as int == d
  {
    ('0' as int + d) as char
  }

  /** How `str(n)` spells a natural number: its decimal digits, without leading zeros. */
  function Decimal(n: nat): (s: string)
    ensures AllDigits(s) && |s| > 0
  {
    if n < 10 then [DigitChar(n)]
    else
      var front := Decimal(n / 10);
      var c := DigitChar(n % 10);
      assert forall x :: x in front + [c] ==> x in front || x == c;
      front + [c]
  }

  /** Converting the decimal spelling of any natural number gives that number back. */
  lemma {:induction false} ParseDecimal(n: nat)
    ensures ParseDigits(Decimal(n)) == Number(n)
    decreases n
  {
    var s := Decimal(n);
    if n < 10 {
      assert s == [DigitChar(n)] && s[..0] == [];
      assert DigitsValue(s) == DigitsValue(s[..0]) * 10 + (s[0] as int - '0' as int);
    } else {
      ParseDecimal(n / 10);
      assert s[..|s| - 1] == Decimal(n / 10);
    }
  }

  /** The three steps on one strength value. */
  function Strength(raw: string): Parsed {
    ParseDigits(KeepDigits(StripThroughDash(raw)))
  }

  /** Step 1 only removes characters: whatever it leaves was in the input. */
  lemma {:induction false} StripKeepsCharacters(s: string)
    ensures forall c :: c in StripThroughDash(s) ==> c in s
    decreases |s|
  {
    if Newline in s {
      var i := StripAtNewline(s);
      StripKeepsCharacters(s[i + 1..]);
      var head := AfterLastDash(s[..i]);
      forall c | c in StripThroughDash(s)
        ensures c in s
      {
        if c in head {
          var t :| 0 <= t < |head| && head[t] == c;
          assert c == s[..i][i - |head| + t];
        } else if c !in [Newline] {
          assert c in StripThroughDash(s[i + 1..]);
          var t :| 0 <= t < |s| - (i + 1) && s[i + 1..][t] == c;
        }
      }
    }
  }

  /** A strength in which no digit occurs cannot be converted to a number. */
  lemma StrengthWithoutDigits(raw: string)
    requires forall c :: c in raw ==> !IsDigit(c)
    ensures Strength(raw).ValueError?
  {
    StripKeepsCharacters(raw);
    KeepDigitsOfNonDigits(StripThroughDash(raw));
  }

  /** Step 1 on "Category-5 mph" drops "Category-". */
  lemma CategoryStrip(category: string)
    requires category == "Category-5 mph"
    ensures StripThroughDash(category) == category[9..]
  {
    assert Newline !in category by {
      forall t | 0 <= t < |category| ensures category[t] != Newline { }
    }
    assert category[8] == Dash;
    assert Dash !in category[9..] by {
      forall t | 0 <= t < |category| - 9 ensures category[9..][t] != Dash { }
    }
    StripSingleLine(category, 8);
  }

  /** Step 2 on "5 mph" keeps the "5". */
  lemma CategoryDigits(rest: string)
    requires rest == "5 mph"
    ensures KeepDigits(rest) == rest[..1]
  {
    var digit, text := rest[..1], rest[1..];
    assert rest == digit + text;
    assert AllDigits(digit) by { assert digit == ['5']; }
    assert forall c :: c in text ==> !IsDigit(c) by {
      forall t | 0 <= t < |text| ensures !IsDigit(text[t]) { }
    }
    KeepDigitsAppend(digit, text);
    KeepDigitsOfDigits(digit);
    KeepDigitsOfNonDigits(text);
  }

  /** "Category-5 mph" becomes 5. */
  lemma StrengthOfCategory(category: string)
    requires category == "Category-5 mph"
    ensures Strength(category) == Number(5)
  {
    CategoryStrip(category);
    var rest := category[9..];
    CategoryDigits(rest);
    var digit := rest[..1];
    assert digit == ['5'] && digit[..0] == [];
    assert DigitsValue(digit) == 5;
  }

  /** "no numbers here" cannot be converted. */
  lemma StrengthOfNoNumbers(none: string)
    requires none == "no numbers here"
    ensures Strength(none).ValueError?
  {
    assert forall c :: c in none ==> !IsDigit(c) by {
      forall i | 0 <= i < |none|
        ensures !IsDigit(none[i])
      {
      }
    }
    StrengthWithoutDigits(none);
  }

  // ---------------------------------------------------------------------------
  // The column assignments
  // ---------------------------------------------------------------------------

  /** A row of the data frame: its `strength` cell and the other columns, left abstract. */
  datatype Observation<Other> = Observation(strength: string, other: Other)

  /** `df['strength'] = df['strength'].str.replace(...)`: one step applied to every row. */
  function RewriteStrength<Other>(frame: seq<Observation<Other>>, step: string -> string): (r: seq<Observation<Other>>)
    ensures |r| == |frame|
    ensures forall i :: 0 <= i < |frame| ==> r[i] == Observation(step(frame[i].strength), frame[i].other)
  {
    if frame == [] then []
    else
      var n := |frame| - 1;
      RewriteStrength(frame[..n], step) + [Observation(step(frame[n].strength), frame[n].other)]
  }

  /** Lines 7 and 8 together: each row cleaned independently, the other columns untouched. */
  lemma CleanFrame<Other>(frame: seq<Observation<Other>>, i: nat)
    requires i < |frame|
    ensures var cleaned := RewriteStrength(RewriteStrength(frame, StripThroughDash), KeepDigits);
      && |cleaned| == |frame|
      && cleaned[i].other == frame[i].other
      && AllDigits(cleaned[i].strength)
      && cleaned[i].strength == KeepDigits(StripThroughDash(frame[i].strength))
      && ParseDigits(cleaned[i].strength) == Strength(frame[i].strength)
  {
  }

  /**
   * Line 9, `astype('float')` on the cleaned column: the conversion fails as a whole if any
   * cleaned strength is empty; otherwise every row gets the number its digits spell.
   */
  function ToNumbers<Other>(frame: seq<Observation<Other>>): (r: Option<seq<nat>>)
    requires forall i :: 0 <= i < |frame| ==> AllDigits(frame[i].strength)
    ensures r.None? <==> exists i :: 0 <= i < |frame| && frame[i].strength == []
    ensures r.Some? ==> |r.value| == |frame|
    ensures r.Some? ==> forall i :: 0 <= i < |frame| ==> r.value[i] == DigitsValue(frame[i].strength)
  {
    if frame == [] then Some([])
    else
      var n := |frame| - 1;
      match ToNumbers(frame[..n])
      case None => assert frame[..n][0] == frame[0]; None
      case Some(prefix) => if frame[n].strength == [] then None else Some(prefix + [DigitsValue(frame[n].strength)])
  }
}
