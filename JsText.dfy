/** The JavaScript string built-ins the page-range parser relies on:
    `String.prototype.split` with a one-character separator,
    `String.prototype.trim`, `parseInt` without a radix, and the decimal
    rendering that template literals apply to a non-negative integer. */
module JsText {
  import opened Wrappers

  // ---------------------------------------------------------------------
  // split(sep) with a single-character separator
  // ---------------------------------------------------------------------

  /** Position of the first occurrence of `c` in `s`. */
  function IndexOf(s: string, c: char): (i: nat)
    requires c in s
    ensures i < |s| && s[i] == c && c !in s[..i]
  {
    if s[0] == c then 0 else 1 + IndexOf(s[1..], c)
  }

  /** `s.split(sep)`: every occurrence of `sep` ends a piece, so the result
      has one more piece than `s` has separators, and `"".split(sep)` is `[""]`. */
  function Split(s: string, sep: char): (parts: seq<string>)
    ensures |parts| >= 1
    decreases |s|
  {
    if sep !in s then [s]
    else
      var i := IndexOf(s, sep);
      [s[..i]] + Split(s[i + 1..], sep)
  }

  /** A text holding the separator splits into at least two pieces. */
  lemma SplitSeveral(s: string, sep: char)
    requires sep in s
    ensures |Split(s, sep)| >= 2
  {
  }

  /** No piece contains the separator. */
  lemma {:induction false} SplitPiecesFree(s: string, sep: char)
    ensures forall i :: 0 <= i < |Split(s, sep)| ==> sep !in Split(s, sep)[i]
    decreases |s|
  {
    if sep in s {
      var i := IndexOf(s, sep);
      SplitPiecesFree(s[i + 1..], sep);
    }
  }

  /** `parts.join(sep)`, the inverse of `Split`. */
  function Join(parts: seq<string>, sep: char): string
    requires |parts| >= 1
    decreases |parts|
  {
    if |parts| == 1 then parts[0] else parts[0] + [sep] + Join(parts[1..], sep)
  }

  /** Joining the pieces back with the separator gives the original text. */
  lemma {:induction false} JoinSplit(s: string, sep: char)
    ensures Join(Split(s, sep), sep) == s
    decreases |s|
  {
    if sep in s {
      var i := IndexOf(s, sep);
      var parts := Split(s, sep);
      assert parts[1..] == Split(s[i + 1..], sep);
      JoinSplit(s[i + 1..], sep);
      assert s == s[..i] + [sep] + s[i + 1..];
    }
  }

  /** The first separator ends the first piece: when `x` has no separator,
      `(x + sep + rest).split(sep)` is `x` followed by the pieces of `rest`. */
  lemma SplitCons(x: string, sep: char, rest: string)
    requires sep !in x
    ensures Split(x + [sep] + rest, sep) == [x] + Split(rest, sep)
  {
    var s := x + [sep] + rest;
    assert s[|x|] == sep;
    var i := IndexOf(s, sep);
    assert s[..i] == x;
    assert s[i + 1..] == rest;
  }

  /** Splitting the join of separator-free pieces gives the pieces back. */
  lemma {:induction false} SplitJoin(parts: seq<string>, sep: char)
    requires |parts| >= 1
    requires forall i :: 0 <= i < |parts| ==> sep !in parts[i]
    ensures Split(Join(parts, sep), sep) == parts
    decreases |parts|
  {
    if |parts| > 1 {
      var tail := parts[1..];
      assert forall i :: 0 <= i < |tail| ==> sep !in tail[i] by {
        forall i | 0 <= i < |tail| ensures sep !in tail[i] {
          assert tail[i] == parts[i + 1];
        }
      }
      calc {
        Split(Join(parts, sep), sep);
        Split(parts[0] + [sep] + Join(tail, sep), sep);
        { SplitCons(parts[0], sep, Join(tail, sep)); }
        [parts[0]] + Split(Join(tail, sep), sep);
        { SplitJoin(tail, sep); }
        [parts[0]] + tail;
        parts;
      }
    }
  }

  /** Two separator-free pieces joined by the separator split back into the two. */
  lemma SplitPair(x: string, y: string, sep: char)
    requires sep !in x && sep !in y
    ensures Split(x + [sep] + y, sep) == [x, y]
  {
    SplitCons(x, sep, y);
    SplitWithoutSeparator(y, sep);
  }

  /** A trailing separator adds one empty piece: `"1,".split(",")` is `["1", ""]`. */
  lemma {:induction false} SplitTrailingSeparator(s: string, sep: char)
    ensures Split(s + [sep], sep) == Split(s, sep) + [""]
    decreases |s|
  {
    if sep !in s {
      calc {
        Split(s + [sep], sep);
        { assert s + [sep] + "" == s + [sep]; SplitCons(s, sep, ""); }
        [s] + Split("", sep);
        { SplitWithoutSeparator(s, sep); }
        Split(s, sep) + [""];
      }
    } else {
      var i := IndexOf(s, sep);
      var head, rest := s[..i], s[i + 1..];
      calc {
        Split(s + [sep], sep);
        { assert s + [sep] == head + [sep] + (rest + [sep]); SplitCons(head, sep, rest + [sep]); }
        [head] + Split(rest + [sep], sep);
        { SplitTrailingSeparator(rest, sep); }
        [head] + (Split(rest, sep) + [""]);
        { assert s == head + [sep] + rest; SplitCons(head, sep, rest); }
        Split(s, sep) + [""];
      }
    }
  }

  /** A text without the separator splits into itself alone. */
  lemma {:induction false} SplitWithoutSeparator(s: string, sep: char)
    requires sep !in s
    ensures Split(s, sep) == [s]
  {
    SplitJoin([s], sep);
  }

  // ---------------------------------------------------------------------
  // trim()
  // ---------------------------------------------------------------------

  /** ECMAScript WhiteSpace and LineTerminator code points: the characters
      `trim` removes and `parseInt` skips. */
  predicate IsWhiteSpace(c: char) {
    || c == '\t' || c == '\n' || c == '\U{000B}' || c == '\U{000C}' || c == '\r'
    || c == ' ' || c == '\U{00A0}' || c == '\U{1680}'
    || ('\U{2000}' <= c <= '\U{200A}')
    || c == '\U{2028}' || c == '\U{2029}' || c == '\U{202F}' || c == '\U{205F}'
    || c == '\U{3000}' || c == '\U{FEFF}'
  }

  function TrimStart(s: string): (r: string)
    decreases |s|
  {
    if |s| > 0 && IsWhiteSpace(s[0]) then TrimStart(s[1..]) else s
  }

  function TrimEnd(s: string): (r: string)
    decreases |s|
  {
    if |s| > 0 && IsWhiteSpace(s[|s| - 1]) then TrimEnd(s[..|s| - 1]) else s
  }

  /** `s.trim()`: drops leading and trailing white space. */
  function Trim(s: string): string {
    TrimEnd(TrimStart(s))
  }

  /** `TrimStart` drops exactly the leading white space: it keeps a suffix
      that is empty or starts with a character other than white space, and
      everything before that suffix is white space. */
  lemma {:induction false} TrimStartSpec(s: string)
    ensures |TrimStart(s)| <= |s| && TrimStart(s) == s[|s| - |TrimStart(s)|..]
    ensures forall k :: 0 <= k < |s| - |TrimStart(s)| ==> IsWhiteSpace(s[k])
    ensures TrimStart(s) == [] || !IsWhiteSpace(TrimStart(s)[0])
    decreases |s|
  {
    if |s| > 0 && IsWhiteSpace(s[0]) {
      TrimStartSpec(s[1..]);
      forall k | 0 <= k < |s| - |TrimStart(s)| ensures IsWhiteSpace(s[k]) {
        if k > 0 {
          assert s[k] == s[1..][k - 1];
        }
      }
    }
  }

  /** `TrimEnd` drops exactly the trailing white space: it keeps a prefix
      that is empty or ends with a character other than white space, and
      everything after that prefix is white space. */
  lemma {:induction false} TrimEndSpec(s: string)
    ensures |TrimEnd(s)| <= |s| && TrimEnd(s) == s[..|TrimEnd(s)|]
    ensures forall k :: |TrimEnd(s)| <= k < |s| ==> IsWhiteSpace(s[k])
    ensures TrimEnd(s) == [] || !IsWhiteSpace(TrimEnd(s)[|TrimEnd(s)| - 1])
    decreases |s|
  {
    if |s| > 0 && IsWhiteSpace(s[|s| - 1]) {
      TrimEndSpec(s[..|s| - 1]);
      forall k | |TrimEnd(s)| <= k < |s| ensures IsWhiteSpace(s[k]) {
        if k < |s| - 1 {
          assert s[k] == s[..|s| - 1][k];
        }
      }
    }
  }

  /** `trim` keeps the part of the text between its leading and its trailing
      white space (the leading part ends where `TrimStart` begins); that part
      neither starts nor ends with white space. */
  lemma TrimSpec(s: string)
    ensures var i, r := |s| - |TrimStart(s)|, Trim(s);
      && 0 <= i && i + |r| <= |s| && r == s[i..i + |r|]
      && (forall k :: 0 <= k < i ==> IsWhiteSpace(s[k]))
      && (forall k :: i + |r| <= k < |s| ==> IsWhiteSpace(s[k]))
      && (r == [] || (!IsWhiteSpace(r[0]) && !IsWhiteSpace(r[|r| - 1])))
  {
    var t := TrimStart(s);
    TrimStartSpec(s);
    TrimEndSpec(t);
    var r := TrimEnd(t);
    var i := |s| - |t|;
    assert r == s[i..i + |r|];
    forall k | i + |r| <= k < |s| ensures IsWhiteSpace(s[k]) {
      assert s[k] == t[k - i];
    }
    if r != [] {
      assert r[0] == t[0];
    }
  }

  /** A text that has no white space at all is left as it is by `trim`. */
  lemma TrimNoWhiteSpace(s: string)
    requires forall i :: 0 <= i < |s| ==> !IsWhiteSpace(s[i])
    ensures Trim(s) == s
  {
  }

  // ---------------------------------------------------------------------
  // parseInt(s) with no radix argument
  // ---------------------------------------------------------------------

  /** The value of a character as a digit in radices up to 36 (0-9, a-z, A-Z);
      36 for every other character, which is never a digit. */
  function DigitValue(c: char): nat {
    if '0' <= c <= '9' then c as int - '0' as int
    else if 'a' <= c <= 'z' then c as int - 'a' as int + 10
    else if 'A' <= c <= 'Z' then c as int - 'A' as int + 10
    else 36
  }

  /** Length of the longest prefix of `s` made of radix-`radix` digits. */
  function DigitRun(s: string, radix: nat): (n: nat)
    ensures n <= |s|
    decreases |s|
  {
    if |s| > 0 && DigitValue(s[0]) < radix then 1 + DigitRun(s[1..], radix) else 0
  }

  /** The number a run of digits denotes, most significant digit first. */
  function DigitsValue(s: string, radix: nat): nat
    decreases |s|
  {
    if |s| == 0 then 0
    else DigitsValue(s[..|s| - 1], radix) * radix + DigitValue(s[|s| - 1])
  }

  /** `parseInt(s)`: skip leading white space, read an optional sign, read a
      `0x`/`0X` prefix as radix 16 (radix 10 otherwise), then take the longest
      run of digits; an empty run is `NaN` (`None`). Trailing text is ignored,
      so `"3abc"` gives 3. */
  function ParseInt(s: string): Option<int>
  {
    var (body, radix) := UnsignedPart(s);
    var n := DigitRun(body, radix);
    if n == 0 then None
    else
      var magnitude: int := DigitsValue(body[..n], radix);
      if IsNegative(s) then Some(-magnitude) else Some(magnitude)
  }

  /** Whether the text after leading white space starts with `-`. */
  predicate IsNegative(s: string) {
    var t := TrimStart(s);
    |t| > 0 && t[0] == '-'
  }

  /** The text after white space, sign and hexadecimal prefix, with its radix. */
  function UnsignedPart(s: string): (string, nat) {
    var t := TrimStart(s);
    var u := if |t| > 0 && (t[0] == '-' || t[0] == '+') then t[1..] else t;
    if |u| >= 2 && u[0] == '0' && (u[1] == 'x' || u[1] == 'X') then (u[2..], 16)
    else (u, 10)
  }

  // ---------------------------------------------------------------------
  // Decimal rendering of a non-negative integer (`${n}` in a template)
  // ---------------------------------------------------------------------

  function DigitChar(d: nat): char
    requires d < 10
  {
    ['0','1','2','3','4','5','6','7','8','9'][d]
  }

  /** The shortest decimal numeral for `n`, as JavaScript prints it below
      10^21 (from there on JavaScript switches to exponent notation). */
  function Decimal(n: nat): (s: string)
    ensures |s| >= 1
    decreases n
  {
    if n < 10 then [DigitChar(n)] else Decimal(n / 10) + [DigitChar(n % 10)]
  }

  /** A numeral is made of decimal digits only, with no leading zero. */
  lemma {:induction false} DecimalDigits(n: nat)
    ensures forall i :: 0 <= i < |Decimal(n)| ==> '0' <= Decimal(n)[i] <= '9'
    ensures Decimal(n)[0] == '0' ==> n == 0
    decreases n
  {
    if n >= 10 {
      DecimalDigits(n / 10);
      assert Decimal(n)[0] == Decimal(n / 10)[0];
    }
  }

  /** Reading the digits of a numeral back gives the number. */
  lemma {:induction false} DecimalValue(n: nat)
    ensures DigitsValue(Decimal(n), 10) == n
    decreases n
  {
    var s := Decimal(n);
    if n >= 10 {
      DecimalValue(n / 10);
      assert s[..|s| - 1] == Decimal(n / 10);
    } else {
      assert s[..0] == [];
    }
  }

  /** A run of decimal digits is read whole by `DigitRun`. */
  lemma {:induction false} DigitRunAllDigits(s: string, radix: nat)
    requires forall i :: 0 <= i < |s| ==> DigitValue(s[i]) < radix
    ensures DigitRun(s, radix) == |s|
    decreases |s|
  {
    if |s| > 0 {
      DigitRunAllDigits(s[1..], radix);
    }
  }

  /** `parseInt` ignores everything after the digits: `"3abc"` gives 3.
      The one exception is a lone `0` followed by `x` or `X`, which
      `parseInt` reads as a hexadecimal prefix. */
  lemma {:induction false} ParseIntIgnoresTail(n: nat, tail: string)
    requires tail == [] || DigitValue(tail[0]) >= 10
    requires n == 0 && tail != [] ==> tail[0] != 'x' && tail[0] != 'X'
    ensures ParseInt(Decimal(n) + tail) == Some(n)
  {
    var d := Decimal(n);
    DecimalDigits(n);
    var s := d + tail;
    assert s[0] == d[0];
    DigitNotWhiteSpace(s[0]);
    assert TrimStart(s) == s;
    assert UnsignedPart(s) == (s, 10) by {
      if |d| == 1 {
        assert s[0] == '0' && |s| >= 2 ==> n == 0 && s[1] == tail[0];
      } else {
        assert s[0] == '0' ==> n == 0;
      }
    }
    DigitRunAllDigits(d, 10);
    DigitRunSplit(d, tail, 10);
    assert s[..|d|] == d;
    DecimalValue(n);
  }

  /** `parseInt` inverts decimal rendering: `parseInt(String(n)) == n`. */
  lemma ParseIntDecimal(n: nat)
    ensures ParseInt(Decimal(n)) == Some(n)
  {
    ParseIntIgnoresTail(n, []);
    assert Decimal(n) + [] == Decimal(n);
  }

  /** A text with no decimal digit anywhere is `NaN`: neither the decimal
      run nor a `0x` prefix can start. */
  lemma ParseIntNeedsDigit(s: string)
    requires forall i :: 0 <= i < |s| ==> !('0' <= s[i] <= '9')
    ensures ParseInt(s).None?
  {
    var t := TrimStart(s);
    TrimStartSpec(s);
    var (body, radix) := UnsignedPart(s);
    var u := if |t| > 0 && (t[0] == '-' || t[0] == '+') then t[1..] else t;
    assert forall i :: 0 <= i < |u| ==> u[i] == s[|s| - |u| + i];
    assert body == u && radix == 10;
    if |body| > 0 {
      assert DigitValue(body[0]) >= 10;
    }
  }

  lemma DigitNotWhiteSpace(c: char)
    requires '0' <= c <= '9'
    ensures !IsWhiteSpace(c) && c != '-' && c != '+'
  {
  }

  lemma {:induction false} DigitRunSplit(d: string, tail: string, radix: nat)
    requires forall i :: 0 <= i < |d| ==> DigitValue(d[i]) < radix
    requires tail == [] || DigitValue(tail[0]) >= radix
    ensures DigitRun(d + tail, radix) == |d|
    decreases |d|
  {
    if |d| > 0 {
      assert (d + tail)[1..] == d[1..] + tail;
      DigitRunSplit(d[1..], tail, radix);
    } else {
      assert d + tail == tail;
    }
  }
}
