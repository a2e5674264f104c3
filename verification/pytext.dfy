/** The pieces of Python's string handling that the time parser relies on:
    `str.strip()` with no argument, `str.split(sep)` with a one-character separator,
    and the built-in `int()` applied to a `str` in base 10.
 */
module PyText {
  import opened Wrappers

  /** Python's notion of whitespace (`str.isspace`), the set `str.strip()` trims: the ASCII
      controls 0x09-0x0D, the separators 0x1C-0x1F, the space, and the Unicode spaces. */
  predicate IsSpace(c: char) {
    var n := c as int;
    || 0x09 <= n <= 0x0D
    || 0x1C <= n <= 0x20
    || n == 0x85 || n == 0xA0 || n == 0x1680
    || 0x2000 <= n <= 0x200A
    || n == 0x2028 || n == 0x2029 || n == 0x202F || n == 0x205F || n == 0x3000
  }

  /** The whitespace `int()` trims. Below 0x7F a character is whitespace to `int()` only when it
      is one of the C-locale spaces 0x09-0x0D and 0x20, so the separators 0x1C-0x1F are not
      trimmed; at or above 0x7F, `int()` first turns every `str.isspace` character into a space. */
  predicate IsIntSpace(c: char) {
    IsSpace(c) && !(0x1C <= c as int <= 0x1F)
  }

  /** `s.lstrip()` over the whitespace set `ws`: drop leading whitespace. */
  function StripLeft(s: string, ws: char -> bool): (r: string)
    ensures |r| <= |s|
    ensures |r| > 0 ==> !ws(r[0])
    decreases |s|
  {
    if |s| > 0 && ws(s[0]) then StripLeft(s[1..], ws) else s
  }

  /** `s.rstrip()` over the whitespace set `ws`: drop trailing whitespace. */
  function StripRight(s: string, ws: char -> bool): (r: string)
    ensures |r| <= |s|
    ensures |r| > 0 ==> !ws(r[|r| - 1])
    decreases |s|
  {
    if |s| > 0 && ws(s[|s| - 1]) then StripRight(s[..|s| - 1], ws) else s
  }

  /** `s.strip()` over the whitespace set `ws`: drop whitespace at both ends. */
  function Strip(s: string, ws: char -> bool): (r: string)
    ensures |r| <= |s|
    ensures |r| > 0 ==> !ws(r[0]) && !ws(r[|r| - 1])
  {
    var t := StripLeft(s, ws);
    var r := StripRight(t, ws);
    StripRightDropsSpaces(t, ws);
    r
  }

  /** `StripLeft` keeps a suffix and what it drops is whitespace. */
  lemma {:induction false} StripLeftDropsSpaces(s: string, ws: char -> bool)
    ensures StripLeft(s, ws) == s[|s| - |StripLeft(s, ws)|..]
    ensures forall k :: 0 <= k < |s| - |StripLeft(s, ws)| ==> ws(s[k])
    decreases |s|
  {
    if |s| > 0 && ws(s[0]) {
      StripLeftDropsSpaces(s[1..], ws);
    }
  }

  /** `StripRight` keeps a prefix and what it drops is whitespace. */
  lemma {:induction false} StripRightDropsSpaces(s: string, ws: char -> bool)
    ensures StripRight(s, ws) == s[..|StripRight(s, ws)|]
    ensures forall k :: |StripRight(s, ws)| <= k < |s| ==> ws(s[k])
    decreases |s|
  {
    if |s| > 0 && ws(s[|s| - 1]) {
      StripRightDropsSpaces(s[..|s| - 1], ws);
    }
  }

  /** `Strip` keeps a middle slice of `s`, and everything cut away on either side is whitespace. */
  lemma StripIsTrimmedSlice(s: string, ws: char -> bool)
    ensures var i := |s| - |StripLeft(s, ws)|;
            && i + |Strip(s, ws)| <= |s|
            && Strip(s, ws) == s[i..i + |Strip(s, ws)|]
            && (forall k :: 0 <= k < |s| && !(i <= k < i + |Strip(s, ws)|) ==> ws(s[k]))
  {
    var t := StripLeft(s, ws);
    var r := StripRight(t, ws);
    assert Strip(s, ws) == r;
    StripLeftDropsSpaces(s, ws);
    StripRightDropsSpaces(t, ws);
    var i := |s| - |t|;
    SliceOfSuffix(s, i, |r|);
    forall k | 0 <= k < |s| && !(i <= k < i + |r|)
      ensures ws(s[k])
    {
      if k >= i {
        assert s[k] == t[k - i];
      }
    }
  }

  /** A prefix of a suffix is a middle slice. */
  lemma SliceOfSuffix(s: string, i: nat, n: nat)
    requires i + n <= |s|
    ensures s[i..][..n] == s[i..i + n]
  {
  }

  /** Stripping a string that has no whitespace at either end changes nothing. */
  lemma StripUnchanged(s: string, ws: char -> bool)
    requires |s| > 0 ==> !ws(s[0]) && !ws(s[|s| - 1])
    ensures Strip(s, ws) == s
  {
    assert StripLeft(s, ws) == s;
  }

  /** `lstrip` removes exactly a whitespace prefix that stops at a non-whitespace character. */
  lemma {:induction false} StripLeftPast(w: string, t: string, ws: char -> bool)
    requires forall k :: 0 <= k < |w| ==> ws(w[k])
    requires |t| > 0 && !ws(t[0])
    ensures StripLeft(w + t, ws) == t
    decreases |w|
  {
    if |w| == 0 {
      assert w + t == t;
    } else {
      assert (w + t)[1..] == w[1..] + t;
      StripLeftPast(w[1..], t, ws);
    }
  }

  /** `rstrip` removes exactly a whitespace suffix that follows a non-whitespace character. */
  lemma {:induction false} StripRightPast(t: string, w: string, ws: char -> bool)
    requires forall k :: 0 <= k < |w| ==> ws(w[k])
    requires |t| > 0 && !ws(t[|t| - 1])
    ensures StripRight(t + w, ws) == t
    decreases |w|
  {
    if |w| == 0 {
      assert t + w == t;
    } else {
      assert (t + w)[..|t + w| - 1] == t + w[..|w| - 1];
      StripRightPast(t, w[..|w| - 1], ws);
    }
  }

  /** `strip` recovers a string with non-whitespace ends from any whitespace around it. */
  lemma StripAround(w1: string, t: string, w2: string, ws: char -> bool)
    requires forall k :: 0 <= k < |w1| ==> ws(w1[k])
    requires forall k :: 0 <= k < |w2| ==> ws(w2[k])
    requires |t| > 0 && !ws(t[0]) && !ws(t[|t| - 1])
    ensures Strip(w1 + t + w2, ws) == t
  {
    assert w1 + t + w2 == w1 + (t + w2);
    StripLeftPast(w1, t + w2, ws);
    StripRightPast(t, w2, ws);
  }

  /** `s.split(sep)`: the pieces between occurrences of `sep`; `n` separators give `n + 1`
      pieces, empty ones included (so `"".split(":")` is `[""]`). */
  function Split(s: string, sep: char): (parts: seq<string>)
    ensures |parts| >= 1
    ensures forall i :: 0 <= i < |parts| ==> sep !in parts[i]
  {
    if |s| == 0 then [""]
    else
      var rest := Split(s[1..], sep);
      if s[0] == sep then [""] + rest
      else [[s[0]] + rest[0]] + rest[1..]
  }

  /** `sep.join(parts)`, the inverse of `Split`. */
  function Join(parts: seq<string>, sep: char): string
    requires |parts| >= 1
  {
    if |parts| == 1 then parts[0] else parts[0] + [sep] + Join(parts[1..], sep)
  }

  /** Splitting loses nothing: joining the pieces gives back the original string. */
  lemma {:induction false} JoinSplit(s: string, sep: char)
    ensures Join(Split(s, sep), sep) == s
    decreases |s|
  {
    if |s| > 0 {
      var rest := Split(s[1..], sep);
      JoinSplit(s[1..], sep);
      if s[0] != sep {
        var parts := Split(s, sep);
        assert parts[0] == [s[0]] + rest[0];
        assert parts[1..] == rest[1..];
        if |rest| == 1 {
          assert Join(parts, sep) == [s[0]] + rest[0];
        } else {
          assert Join(rest, sep) == rest[0] + [sep] + Join(rest[1..], sep);
        }
        assert s == [s[0]] + s[1..];
      } else {
        assert Split(s, sep)[1..] == rest;
      }
    }
  }

  /** A string without the separator is one piece. */
  lemma {:induction false} SplitNoSeparator(p: string, sep: char)
    requires sep !in p
    ensures Split(p, sep) == [p]
    decreases |p|
  {
    if |p| > 0 {
      SplitNoSeparator(p[1..], sep);
      assert [p[0]] + p[1..] == p;
    }
  }

  /** A separator-free prefix followed by the separator becomes the first piece. */
  lemma {:induction false} SplitAfterPiece(p: string, sep: char, rest: string)
    requires sep !in p
    ensures Split(p + [sep] + rest, sep) == [p] + Split(rest, sep)
    decreases |p|
  {
    var s := p + [sep] + rest;
    if |p| == 0 {
      assert s == [sep] + rest;
      assert s[1..] == rest;
    } else {
      assert s[1..] == p[1..] + [sep] + rest;
      SplitAfterPiece(p[1..], sep, rest);
      assert [p[0]] + p[1..] == p;
    }
  }

  /** Joining separator-free pieces and splitting again gives back the pieces. */
  lemma {:induction false} SplitJoin(parts: seq<string>, sep: char)
    requires |parts| >= 1
    requires forall i :: 0 <= i < |parts| ==> sep !in parts[i]
    ensures Split(Join(parts, sep), sep) == parts
    decreases |parts|
  {
    if |parts| == 1 {
      SplitNoSeparator(parts[0], sep);
    } else {
      SplitJoin(parts[1..], sep);
      SplitAfterPiece(parts[0], sep, Join(parts[1..], sep));
      assert [parts[0]] + parts[1..] == parts;
    }
  }

  predicate IsDigit(c: char) {
    '0' <= c <= '9'
  }

  /** The body `int()` accepts after an optional sign: ASCII digits, where single
      underscores may separate two digits (`"1_000"`); leading zeros are allowed.
      As a grammar: run = digit | digit run | digit "_" run. */
  predicate IsDigitRun(s: string)
    decreases |s|
  {
    && |s| > 0
    && IsDigit(s[0])
    && (|s| == 1 || (if s[1] == '_' then |s| > 2 && IsDigitRun(s[2..]) else IsDigitRun(s[1..])))
  }

  function DigitValue(c: char): (d: nat)
    requires IsDigit(c)
    ensures d < 10
  {
    c as int - '0' as int
  }

  /** The decimal value of a digit run (underscores ignored), read left to right onto `acc`. */
  function RunValue(s: string, acc: nat): nat
    requires IsDigitRun(s)
    decreases |s|
  {
    var acc' := 10 * acc + DigitValue(s[0]);
    if |s| == 1 then acc'
    else if s[1] == '_' then RunValue(s[2..], acc')
    else RunValue(s[1..], acc')
  }

  /** The default limit on the number of digits `int()` converts from a `str`
      (`sys.get_int_max_str_digits()`); longer numbers raise `ValueError`. */
  const MaxStrDigits: nat := 4300

  /** The number of digits in `s`; underscores do not count, leading zeros do. */
  function DigitCount(s: string): (n: nat)
    ensures n <= |s|
  {
    if |s| == 0 then 0 else (if IsDigit(s[0]) then 1 else 0) + DigitCount(s[1..])
  }

  /** A digit run `int()` converts: within the digit limit. */
  predicate IsNumeral(s: string) {
    IsDigitRun(s) && DigitCount(s) <= MaxStrDigits
  }

  /** Python `int(s)` on a `str`, with the default digit limit: `None` where Python raises
      `ValueError`. Surrounding whitespace (as `int()` reads it) is trimmed, one sign is
      allowed, and the rest must be a digit run of at most `MaxStrDigits` digits. */
  function PyInt(s: string): (r: Option<int>)
    ensures r.Some? ==> |Strip(s, IsIntSpace)| > 0
    ensures r.Some? && r.value < 0 ==> Strip(s, IsIntSpace)[0] == '-'
  {
    var t := Strip(s, IsIntSpace);
    if |t| > 0 && (t[0] == '+' || t[0] == '-') then
      if IsNumeral(t[1..]) then
        var magnitude: int := RunValue(t[1..], 0);
        Some(if t[0] == '-' then -magnitude else magnitude)
      else None
    else if IsNumeral(t) then Some(RunValue(t, 0))
    else None
  }

  function DigitChar(d: int): char
    requires 0 <= d < 10
  {
    ('0' as int + d) as char
  }

  /** `n` written with exactly two digits, zero-padded (`f"{n:02d}"`). */
  function TwoDigits(n: int): (s: string)
    requires 0 <= n < 100
    ensures |s| == 2 && IsDigit(s[0]) && IsDigit(s[1])
  {
    [DigitChar(n / 10), DigitChar(n % 10)]
  }

  /** `int()` reads a two-digit zero-padded number back. */
  lemma PyIntTwoDigits(n: int)
    requires 0 <= n < 100
    ensures PyInt(TwoDigits(n)) == Some(n)
  {
    var s := TwoDigits(n);
    StripUnchanged(s, IsIntSpace);
    DigitCountOfDigits(s);
    assert IsDigitRun(s[1..]);
    assert RunValue(s, 0) == RunValue(s[1..], n / 10) == 10 * (n / 10) + n % 10;
  }

  /** `int()` is lenient: surrounding whitespace, a sign, leading zeros and single
      underscores between digits are all accepted. */
  lemma PyIntLenientSpellings()
    ensures PyInt(" 07") == Some(7)
    ensures PyInt("+0_5") == Some(5)
  {
  }

  /** ...but a doubled underscore, a leading underscore and the empty string are not. */
  lemma PyIntRejectedSpellings()
    ensures PyInt("1__0") == None
    ensures PyInt("_1") == None
    ensures PyInt("") == None
  {
  }

  /** `str.strip()` trims the separator 0x1C but `int()` does not, so `int()` rejects a number
      that `str.strip()` would have cleaned up. */
  lemma IntKeepsSeparators()
    ensures Strip("\U{1C}7", IsSpace) == "7"
    ensures PyInt("\U{1C}7") == None
  {
  }

  /** `str(n)` for a natural number: its decimal digits, most significant first, no leading zero. */
  function Decimal(n: nat): (s: string)
    ensures |s| > 0 && forall i :: 0 <= i < |s| ==> IsDigit(s[i])
    ensures n > 0 ==> s[0] != '0'
    decreases n
  {
    if n < 10 then [DigitChar(n)] else Decimal(n / 10) + [DigitChar(n % 10)]
  }

  /** `str(i)` for an integer: a minus sign before the digits of a negative number. */
  function Str(i: int): (s: string)
    ensures |s| > 0
    ensures s[0] == '-' <==> i < 0
  {
    if i < 0 then "-" + Decimal(-i) else Decimal(i)
  }

  /** A non-empty string of digits is a digit run. */
  lemma {:induction false} DigitsAreRun(s: string)
    requires |s| > 0 && forall i :: 0 <= i < |s| ==> IsDigit(s[i])
    ensures IsDigitRun(s)
    decreases |s|
  {
    if |s| > 1 {
      DigitsAreRun(s[1..]);
    }
  }

  /** Reading one more digit multiplies what was read by ten and adds the digit. */
  lemma {:induction false} RunValueSnoc(s: string, c: char, acc: nat)
    requires |s| > 0 && forall i :: 0 <= i < |s| ==> IsDigit(s[i])
    requires IsDigit(c)
    ensures IsDigitRun(s) && IsDigitRun(s + [c])
    ensures RunValue(s + [c], acc) == 10 * RunValue(s, acc) + DigitValue(c)
    decreases |s|
  {
    DigitsAreRun(s);
    DigitsAreRun(s + [c]);
    var acc' := 10 * acc + DigitValue(s[0]);
    if |s| > 1 {
      assert (s + [c])[1..] == s[1..] + [c];
      RunValueSnoc(s[1..], c, acc');
    }
  }

  /** `int()` reads the digits of a natural number back as that number. */
  lemma {:induction false} DecimalValue(n: nat)
    ensures IsDigitRun(Decimal(n)) && RunValue(Decimal(n), 0) == n
    decreases n
  {
    if n >= 10 {
      DecimalValue(n / 10);
      RunValueSnoc(Decimal(n / 10), DigitChar(n % 10), 0);
    }
  }

  /** In a string of digits, every character counts toward the digit limit. */
  lemma {:induction false} DigitCountOfDigits(s: string)
    requires forall i :: 0 <= i < |s| ==> IsDigit(s[i])
    ensures DigitCount(s) == |s|
    decreases |s|
  {
    if |s| > 0 {
      DigitCountOfDigits(s[1..]);
    }
  }

  /** `int(str(i)) == i` for every integer whose digits are within the limit; beyond it
      `int()` refuses the digits. */
  lemma PyIntStr(i: int)
    ensures var digits := Decimal(if i < 0 then -i else i);
            PyInt(Str(i)) == if |digits| <= MaxStrDigits then Some(i) else None
  {
    var s := Str(i);
    var digits := Decimal(if i < 0 then -i else i);
    StripUnchanged(s, IsIntSpace);
    DigitCountOfDigits(digits);
    DecimalValue(if i < 0 then -i else i);
    if i < 0 {
      assert s[1..] == digits;
    }
  }

  /** A string of more than `MaxStrDigits` digits is refused, however small its value:
      leading zeros count toward the limit. */
  lemma PyIntTooManyDigits(s: string)
    requires forall i :: 0 <= i < |s| ==> IsDigit(s[i])
    requires |s| > MaxStrDigits
    ensures PyInt(s) == None
  {
    StripUnchanged(s, IsIntSpace);
    DigitCountOfDigits(s);
  }
}
