/**
 * The few pieces of the Java string library the pattern codec calls:
 * `String.split` with a one-character separator and with the empty pattern,
 * `Integer.parseInt` and the decimal text `StringBuilder.append(int)` writes.
 */
module JavaStrings {
  import opened Wrappers

  /** Smallest and largest 32-bit int. */
  const MinInt: int := -0x8000_0000
  const MaxInt: int := 0x7fff_ffff

  /** Every piece between separators, empty ones included: one more piece than there are separators. */
  function SplitAll(s: string, sep: char): (r: seq<string>)
    ensures |r| >= 1
    ensures forall k :: 0 <= k < |r| ==> sep !in r[k]
    decreases |s|
  {
    if |s| == 0 then [""]
    else if s[0] == sep then [""] + SplitAll(s[1..], sep)
    else
      var rest := SplitAll(s[1..], sep);
      [[s[0]] + rest[0]] + rest[1..]
  }

  /** Removes the empty pieces at the end. */
  function DropTrailingEmpty(r: seq<string>): (t: seq<string>)
    ensures |t| <= |r| && t == r[..|t|]
    ensures |t| > 0 ==> t[|t| - 1] != ""
    ensures forall k :: |t| <= k < |r| ==> r[k] == ""
  {
    if |r| > 0 && r[|r| - 1] == "" then DropTrailingEmpty(r[..|r| - 1]) else r
  }

  /**
   * `s.split(sep)` for a separator that is a single non-special character:
   * without a separator the whole string (even "") is the only piece; otherwise
   * the pieces with trailing empty ones removed.
   */
  function JavaSplit(s: string, sep: char): (r: seq<string>)
    ensures forall k :: 0 <= k < |r| ==> sep !in r[k]
    ensures sep in s ==> |r| == 0 || r[|r| - 1] != ""
  {
    if sep !in s then [s] else DropTrailingEmpty(SplitAll(s, sep))
  }

  /** `s.split("")`: one piece per character, and the single piece "" for the empty string. */
  function SplitChars(s: string): (r: seq<string>)
    ensures |r| == if s == "" then 1 else |s|
    ensures s != "" ==> forall k :: 0 <= k < |s| ==> r[k] == [s[k]]
  {
    if s == "" then [""] else seq(|s|, k requires 0 <= k < |s| => [s[k]])
  }

  predicate IsDigit(c: char)
  {
    '0' <= c <= '9'
  }

  predicate AllDigits(s: string)
  {
    forall k :: 0 <= k < |s| ==> IsDigit(s[k])
  }

  /** The value of a string of decimal digits, most significant first. */
  function DigitsValue(s: string): (v: nat)
    requires AllDigits(s)
  {
    if |s| == 0 then 0 else DigitsValue(s[..|s| - 1]) * 10 + (s[|s| - 1] as int - '0' as int)
  }

  /**
   * `Integer.parseInt`: an optional sign, at least one digit, and a value in
   * the 32-bit range; anything else is a NumberFormatException (None).
   */
  function ParseInt(s: string): (r: Option<int>)
    ensures r.Some? ==> MinInt <= r.value <= MaxInt
    ensures s == "" ==> r.None?
  {
    if |s| == 0 then None
    else
      var negative := s[0] == '-';
      var digits := if s[0] == '-' || s[0] == '+' then s[1..] else s;
      if |digits| == 0 || !AllDigits(digits) then None
      else
        var magnitude: int := DigitsValue(digits);
        var v := if negative then -magnitude else magnitude;
        if MinInt <= v <= MaxInt then Some(v) else None
  }

  function DigitChar(d: int): (c: char)
    requires 0 <= d < 10
    ensures IsDigit(c) && c as int - '0' as int == d
  {
    ('0' as int + d) as char
  }

  /** Decimal digits of k, without leading zeros. */
  function NatToString(k: nat): (s: string)
    ensures |s| >= 1 && AllDigits(s)
    ensures DigitsValue(s) == k
  {
    if k < 10 then [DigitChar(k)]
    else
      var s := NatToString(k / 10) + [DigitChar(k % 10)];
      assert s[..|s| - 1] == NatToString(k / 10);
      s
  }

  /** The text `StringBuilder.append(int)` writes: a minus sign for negative values, then the digits. */
  function IntToString(n: int): (s: string)
    ensures |s| >= 1
  {
    if n < 0 then "-" + NatToString(-n) else NatToString(n)
  }

  /** Parsing what was printed gives the number back, for every 32-bit int. */
  lemma ParseIntToString(n: int)
    requires MinInt <= n <= MaxInt
    ensures ParseInt(IntToString(n)) == Some(n)
  {
    var s := IntToString(n);
    if n < 0 {
      assert s[1..] == NatToString(-n);
    } else {
      assert s[0] != '-' && s[0] != '+';
    }
  }

  /** A string without the separator splits into itself. */
  lemma {:induction false} SplitAllNoSep(s: string, sep: char)
    requires sep !in s
    ensures SplitAll(s, sep) == [s]
    decreases |s|
  {
    if |s| > 0 {
      SplitAllNoSep(s[1..], sep);
      assert [s[0]] + s[1..] == s;
    }
  }

  /** A separator after a separator-free prefix ends the first piece. */
  lemma {:induction false} SplitAllCons(a: string, sep: char, b: string)
    requires sep !in a
    ensures SplitAll(a + [sep] + b, sep) == [a] + SplitAll(b, sep)
    decreases |a|
  {
    var s := a + [sep] + b;
    if |a| == 0 {
      assert s == [sep] + b;
      assert s[1..] == b;
    } else {
      assert s[1..] == a[1..] + [sep] + b;
      SplitAllCons(a[1..], sep, b);
      assert [a[0]] + a[1..] == a;
    }
  }

  /** Decimal text never holds a separator such as ';'. */
  lemma NoSepInIntToString(n: int, sep: char)
    requires !IsDigit(sep) && sep != '-'
    ensures sep !in IntToString(n)
  {
    var s := IntToString(n);
    if n < 0 {
      assert forall k :: 1 <= k < |s| ==> s[k] == NatToString(-n)[k - 1];
    }
  }

  /** "a;b;c" with separator-free, non-empty a, b and c splits into exactly [a, b, c]. */
  lemma SplitThree(a: string, b: string, c: string, sep: char)
    requires sep !in a && sep !in b && sep !in c && c != ""
    ensures JavaSplit(a + [sep] + b + [sep] + c, sep) == [a, b, c]
  {
    var s := a + [sep] + b + [sep] + c;
    assert s == a + [sep] + (b + [sep] + c);
    assert s[|a|] == sep;
    SplitAllCons(a, sep, b + [sep] + c);
    SplitAllCons(b, sep, c);
    SplitAllNoSep(c, sep);
    assert SplitAll(s, sep) == [a, b, c];
  }

  /** A separator after the third field leaves an empty last piece, which the split drops. */
  lemma SplitThreeTrailing(a: string, b: string, c: string, sep: char)
    requires sep !in a && sep !in b && sep !in c && c != ""
    ensures JavaSplit(a + [sep] + b + [sep] + c + [sep], sep) == [a, b, c]
  {
    var s := a + [sep] + b + [sep] + c + [sep];
    assert s == a + [sep] + (b + [sep] + (c + [sep] + []));
    assert s[|s| - 1] == sep;
    SplitAllCons(a, sep, b + [sep] + (c + [sep] + []));
    SplitAllCons(b, sep, c + [sep] + []);
    SplitAllCons(c, sep, []);
    assert SplitAll(s, sep) == [a, b, c, ""];
    assert DropTrailingEmpty([a, b, c, ""]) == DropTrailingEmpty([a, b, c]);
  }
}
