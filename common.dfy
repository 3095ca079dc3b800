/**
 * Small value-level helpers shared by the server and the client views:
 * an Option type, the string operations the JavaScript code relies on
 * (`toLowerCase`, `includes`, `trim`) and decimal rendering of numbers.
 */
module Common {

  datatype Option<+T> = None | Some(value: T)

  /** ASCII lower-casing of one character; every other code point is kept. */
  function LowerChar(c: char): char
  {
    if 'A' <= c <= 'Z' then (c as int + 32) as char else c
  }

  /** `s.toLowerCase()`, restricted to ASCII letters. */
  function Lower(s: string): (r: string)
    ensures |r| == |s|
    ensures forall i :: 0 <= i < |s| ==> r[i] == LowerChar(s[i])
  {
    seq(|s|, i requires 0 <= i < |s| => LowerChar(s[i]))
  }

  /** `sub` occurs in `s` starting at offset `i`. */
  predicate OccursAt(s: string, sub: string, i: int)
  {
    0 <= i <= |s| - |sub| && s[i..i + |sub|] == sub
  }

  /** `s.includes(sub)`: `sub` occurs in `s` at some offset. */
  predicate Contains(s: string, sub: string)
  {
    exists i | 0 <= i <= |s| - |sub| :: OccursAt(s, sub, i)
  }

  /** Every string includes the empty string, so an empty search term keeps everything. */
  lemma ContainsEmpty(s: string)
    ensures Contains(s, "")
  {
    assert OccursAt(s, "", 0);
  }

  /** A string includes itself. */
  lemma ContainsSelf(s: string)
    ensures Contains(s, s)
  {
    assert OccursAt(s, s, 0);
  }

  /**
   * The characters removed by `String.prototype.trim`: the ECMAScript
   * WhiteSpace (TAB, VT, FF, SP, NBSP, ZWNBSP and the Zs category) and
   * LineTerminator (LF, CR, LS, PS) code points.
   */
  predicate IsSpace(c: char)
  {
    var n := c as int;
    n == 0x09 || n == 0x0A || n == 0x0B || n == 0x0C || n == 0x0D || n == 0x20 ||
    n == 0xA0 || n == 0x1680 || (0x2000 <= n <= 0x200A) || n == 0x2028 || n == 0x2029 ||
    n == 0x202F || n == 0x205F || n == 0x3000 || n == 0xFEFF
  }

  /** Drops leading white space. */
  function TrimStart(s: string): (r: string)
    ensures |r| <= |s| && r == s[|s| - |r|..]
    ensures r == [] || !IsSpace(r[0])
    ensures forall i :: 0 <= i < |s| - |r| ==> IsSpace(s[i])
  {
    if s != [] && IsSpace(s[0]) then TrimStart(s[1..]) else s
  }

  /** Drops trailing white space. */
  function TrimEnd(s: string): (r: string)
    ensures |r| <= |s| && r == s[..|r|]
    ensures r == [] || !IsSpace(r[|r| - 1])
    ensures forall i :: |r| <= i < |s| ==> IsSpace(s[i])
  {
    if s != [] && IsSpace(s[|s| - 1]) then TrimEnd(s[..|s| - 1]) else s
  }

  /** `s.trim()`. */
  function Trim(s: string): string
  {
    TrimEnd(TrimStart(s))
  }

  /** A string trims to nothing exactly when every character of it is white space. */
  lemma TrimEmptyIff(s: string)
    ensures Trim(s) == "" <==> forall i :: 0 <= i < |s| ==> IsSpace(s[i])
  {
    var t := TrimStart(s);
    if Trim(s) == "" {
      forall i | 0 <= i < |s| ensures IsSpace(s[i]) {
        if i >= |s| - |t| {
          assert t[i - (|s| - |t|)] == s[i];
        }
      }
    } else {
      var r := Trim(s);
      assert r == t[..|r|];
      assert !IsSpace(t[0]);
      assert t[0] == s[|s| - |t|];
    }
  }

  function DigitChar(d: nat): char
    requires d < 10
  {
    ('0' as int + d) as char
  }

  predicate IsDigit(c: char)
  {
    '0' <= c <= '9'
  }

  /** The decimal rendering of a natural number, as template literals and `toString` produce it. */
  function Decimal(n: nat): (r: string)
    ensures |r| >= 1
    ensures forall i :: 0 <= i < |r| ==> IsDigit(r[i])
    ensures n >= 10 ==> r[0] != '0'
    decreases n
  {
    if n < 10 then [DigitChar(n)] else Decimal(n / 10) + [DigitChar(n % 10)]
  }

  // ---------------------------------------------------------------- parseInt

  /** The value of a digit character in bases up to 16; 16 for any other character. */
  function DigitValue(c: char): nat
  {
    if '0' <= c <= '9' then c as int - '0' as int
    else if 'a' <= c <= 'f' then c as int - 'a' as int + 10
    else if 'A' <= c <= 'F' then c as int - 'A' as int + 10
    else 16
  }

  /** The length of the longest prefix of `s` made of digits of `radix`. */
  function DigitRun(s: string, radix: nat): (n: nat)
    ensures n <= |s|
    ensures forall i | 0 <= i < n :: DigitValue(s[i]) < radix
    ensures n < |s| ==> DigitValue(s[n]) >= radix
  {
    if s != [] && DigitValue(s[0]) < radix then 1 + DigitRun(s[1..], radix) else 0
  }

  /** The number a run of digits denotes, most significant first. */
  function DigitsValue(digits: string, radix: nat): nat
  {
    if digits == [] then 0
    else DigitsValue(digits[..|digits| - 1], radix) * radix + DigitValue(digits[|digits| - 1])
  }

  /** Drops one leading sign character. */
  function AfterSign(t: string): string
  {
    if t != [] && (t[0] == '+' || t[0] == '-') then t[1..] else t
  }

  /** The `0x`/`0X` prefix that switches `parseInt` to base 16. */
  predicate HexPrefix(u: string)
  {
    |u| >= 2 && u[0] == '0' && (u[1] == 'x' || u[1] == 'X')
  }

  /** The unsigned part of `parseInt`: None when no digit follows. */
  function ParseUnsigned(u: string): Option<nat>
  {
    var radix := if HexPrefix(u) then 16 else 10;
    var body := if HexPrefix(u) then u[2..] else u;
    var n := DigitRun(body, radix);
    if n == 0 then None else Some(DigitsValue(body[..n], radix))
  }

  /**
   * `parseInt(s)` with no radix: leading white space is skipped, one sign is
   * read, a `0x`/`0X` prefix selects base 16, and the longest run of digits
   * that follows is the value. None is NaN, when that run is empty.
   */
  function ParseInt(s: string): (r: Option<int>)
  {
    var t := TrimStart(s);
    match ParseUnsigned(AfterSign(t))
    case None => None
    case Some(v) => Some(if t != [] && t[0] == '-' then 0 - v as int else v as int)
  }

  lemma {:induction false} DecimalValue(n: nat)
    ensures DigitsValue(Decimal(n), 10) == n
    decreases n
  {
    if n >= 10 {
      DecimalValue(n / 10);
      var d := Decimal(n);
      assert d[..|d| - 1] == Decimal(n / 10);
    }
  }

  /**
   * `parseInt` reads back what decimal rendering wrote, whatever follows the
   * number, provided that text does not continue it as a digit or turn a
   * lone 0 into a `0x` prefix.
   */
  lemma ParseIntDecimal(n: nat, suffix: string)
    requires suffix == [] || (DigitValue(suffix[0]) >= 10 && suffix[0] != 'x' && suffix[0] != 'X')
    ensures ParseInt(Decimal(n) + suffix) == Some(n)
  {
    var d := Decimal(n);
    var s := d + suffix;
    assert s[0] == d[0] && IsDigit(d[0]);
    assert TrimStart(s) == s;
    assert AfterSign(s) == s;
    ParseUnsignedDecimal(n, suffix);
  }

  lemma ParseUnsignedDecimal(n: nat, suffix: string)
    requires suffix == [] || (DigitValue(suffix[0]) >= 10 && suffix[0] != 'x' && suffix[0] != 'X')
    ensures ParseUnsigned(Decimal(n) + suffix) == Some(n)
  {
    var d := Decimal(n);
    var s := d + suffix;
    assert !HexPrefix(s) by {
      if |s| >= 2 && s[0] == '0' && n < 10 {
        assert |d| == 1 && s[1] == suffix[0];
      }
    }
    DigitRunStops(d, suffix);
    assert s[..|d|] == d;
    DecimalValue(n);
  }

  lemma {:induction false} DigitRunStops(d: string, suffix: string)
    requires forall i | 0 <= i < |d| :: IsDigit(d[i])
    requires suffix == [] || DigitValue(suffix[0]) >= 10
    ensures DigitRun(d + suffix, 10) == |d|
  {
    if d != [] {
      assert (d + suffix)[1..] == d[1..] + suffix;
      DigitRunStops(d[1..], suffix);
    } else {
      assert d + suffix == suffix;
    }
  }
}
