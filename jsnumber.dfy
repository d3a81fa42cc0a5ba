/** Integer <-> text conversions with JavaScript's semantics:
    `Number.prototype.toString(radix)` on non-negative integers and the
    lenient `parseInt(text, radix)`. Numbers are exact integers here. */
module JsNumber {
  import opened Wrappers
  import Text

  /** The value of a digit character in any radix up to 36; 36 for a
      character that is no digit at all. */
  function DigitValue(c: char): nat {
    if '0' <= c <= '9' then c as int - '0' as int
    else if 'a' <= c <= 'z' then c as int - 'a' as int + 10
    else if 'A' <= c <= 'Z' then c as int - 'A' as int + 10
    else 36
  }

  predicate IsDigit(c: char, radix: nat) {
    DigitValue(c) < radix
  }

  /** The lower-case digit character for `d`, as `toString` writes it. */
  function DigitChar(d: nat): (c: char)
    requires d < 36
    ensures DigitValue(c) == d
    ensures ('0' <= c <= '9') || ('a' <= c <= 'z')
  {
    if d < 10 then ('0' as int + d) as char else ('a' as int + d - 10) as char
  }

  /** `n.toString(radix)`: most significant digit first, no leading zero. */
  function ToString(n: nat, radix: nat): (r: string)
    requires radix == 10 || radix == 16
    ensures |r| >= 1
    ensures forall i :: 0 <= i < |r| ==> IsDigit(r[i], radix) && !('A' <= r[i] <= 'Z')
    ensures r[0] == '0' ==> r == "0"
    decreases n
  {
    if n < radix then [DigitChar(n)] else ToString(n / radix, radix) + [DigitChar(n % radix)]
  }

  /** A decimal numeral is made of the characters `0` to `9`. */
  lemma DecimalDigits(n: nat)
    ensures forall i :: 0 <= i < |ToString(n, 10)| ==> '0' <= ToString(n, 10)[i] <= '9'
  {
    var r := ToString(n, 10);
    forall i | 0 <= i < |r| ensures '0' <= r[i] <= '9' {
      assert IsDigit(r[i], 10);
    }
  }

  /** The number a string of digits denotes, read most significant first. */
  function Value(digits: string, radix: nat): nat
    requires forall i :: 0 <= i < |digits| ==> IsDigit(digits[i], radix)
  {
    if digits == [] then 0
    else
      var front := digits[..|digits| - 1];
      var v := Value(front, radix);
      MulNonNegative(v, radix);
      v * radix + DigitValue(digits[|digits| - 1])
  }

  /** Products of naturals are natural (kept out of `Value`'s own obligations). */
  lemma MulNonNegative(a: nat, b: nat)
    ensures a * b >= 0
  {
  }

  /** The length of the run of digits that starts `s`. */
  function DigitPrefix(s: string, radix: nat): (k: nat)
    ensures k <= |s|
    ensures forall i :: 0 <= i < k ==> IsDigit(s[i], radix)
    ensures k == |s| || !IsDigit(s[k], radix)
  {
    if s != [] && IsDigit(s[0], radix) then 1 + DigitPrefix(s[1..], radix) else 0
  }

  /** `parseInt(s, radix)` for radix 10 and 16: white space is skipped, then
      one sign, then (radix 16 only) a `0x`/`0X` prefix; the longest run of
      digits that follows is read and the rest ignored. No digits: NaN,
      written `None`; so is text of white space alone. */
  function ParseInt(s: string, radix: nat): (r: Option<int>)
    requires radix == 10 || radix == 16
    ensures (forall i :: 0 <= i < |s| ==> Text.IsSpace(s[i])) ==> r.None?
  {
    if s != [] && Text.IsSpace(s[0]) then
      assert forall i :: 0 <= i < |s[1..]| ==> s[1..][i] == s[i + 1];
      ParseInt(s[1..], radix)
    else
      ParseSigned(s, radix)
  }

  /** Leading white space does not change the result: `parseInt` reads the
      text as `trimStart` leaves it. */
  lemma {:induction false} ParseIntSkipsSpace(s: string, radix: nat)
    requires radix == 10 || radix == 16
    ensures ParseInt(s, radix) == ParseSigned(Text.TrimStart(s), radix)
    decreases |s|
  {
    if s != [] && Text.IsSpace(s[0]) {
      ParseIntSkipsSpace(s[1..], radix);
      assert s[1..][Text.LeadingSpaces(s[1..])..] == s[Text.LeadingSpaces(s)..];
    }
  }

  /** `parseInt` once white space is skipped: an empty text, or one that
      starts with neither a sign nor a digit, is NaN; a `-` gives a
      result of at most zero, anything else one of at least zero. */
  function ParseSigned(t: string, radix: nat): (r: Option<int>)
    requires radix == 10 || radix == 16
    ensures t == [] || (t[0] != '-' && t[0] != '+' && !IsDigit(t[0], radix)) ==> r.None?
    ensures r.Some? && t[0] == '-' ==> r.value <= 0
    ensures r.Some? && t[0] != '-' ==> r.value >= 0
  {
    var negative := t != [] && t[0] == '-';
    var u := if t != [] && (t[0] == '-' || t[0] == '+') then t[1..] else t;
    var v := if radix == 16 && |u| >= 2 && u[0] == '0' && (u[1] == 'x' || u[1] == 'X') then u[2..] else u;
    var k := DigitPrefix(v, radix);
    if k == 0 then None
    else
      var magnitude: int := Value(v[..k], radix);
      Some(if negative then -magnitude else magnitude)
  }

  /** Reading back what `toString` wrote gives the number. */
  lemma {:induction false} ValueOfToString(n: nat, radix: nat)
    requires radix == 10 || radix == 16
    ensures Value(ToString(n, radix), radix) == n
    decreases n
  {
    if n >= radix {
      var r := ToString(n, radix);
      var front := ToString(n / radix, radix);
      assert r == front + [DigitChar(n % radix)];
      assert r[..|r| - 1] == front;
      ValueOfToString(n / radix, radix);
      assert Value(r, radix) == Value(front, radix) * radix + n % radix;
      assert Value(front, radix) == n / radix;
      if radix == 10 {
        assert (n / 10) * 10 + n % 10 == n;
      } else {
        assert (n / 16) * 16 + n % 16 == n;
      }
    }
  }

  /** `parseInt` reads a numeral back, whatever non-digit text follows it
      (the leading-digits leniency). */
  lemma ParseNumeral(d: string, rest: string, radix: nat)
    requires radix == 10 || radix == 16
    requires d != [] && forall i :: 0 <= i < |d| ==> IsDigit(d[i], radix)
    requires rest == [] || !IsDigit(rest[0], radix)
    requires radix == 16 && d == "0" && rest != [] ==> rest[0] != 'x' && rest[0] != 'X'
    ensures ParseInt(d + rest, radix) == Some(Value(d, radix))
  {
    var s := d + rest;
    assert s[0] == d[0];
    DigitIsNoSpace(s[0], radix);
    assert !(radix == 16 && |s| >= 2 && s[0] == '0' && (s[1] == 'x' || s[1] == 'X')) by {
      if radix == 16 && |s| >= 2 && s[0] == '0' {
        assert |d| >= 2 ==> s[1] == d[1];
        assert |d| == 1 ==> d == "0" && s[1] == rest[0];
      }
    }
    DigitPrefixOf(d, rest, radix);
    assert s[..|d|] == d;
    assert ParseSigned(s, radix) == Some(Value(d, radix));
  }

  /** No digit is white space, so `parseInt` starts reading at a digit. */
  lemma DigitIsNoSpace(c: char, radix: nat)
    requires radix == 10 || radix == 16
    requires IsDigit(c, radix)
    ensures !Text.IsSpace(c)
  {
  }

  /** Two digits denote the first times the radix plus the second. */
  lemma ValueOfPair(a: char, b: char, radix: nat)
    requires IsDigit(a, radix) && IsDigit(b, radix)
    ensures Value([a, b], radix) == DigitValue(a) * radix + DigitValue(b)
  {
    assert [a, b][..1] == [a];
    assert [a][..0] == [];
    assert Value([a], radix) == 0 * radix + DigitValue(a);
    assert 0 * radix == 0;
    assert Value([a, b], radix) == Value([a], radix) * radix + DigitValue(b);
  }

  /** `parseInt` reads a decimal numeral written by `toString` back, whatever
      non-digit text follows it: the leniency `verifyToken` relies on. */
  lemma DecimalRoundTrip(n: nat, rest: string)
    requires rest == [] || !IsDigit(rest[0], 10)
    ensures ParseInt(ToString(n, 10) + rest, 10) == Some(n)
  {
    ParseNumeral(ToString(n, 10), rest, 10);
    ValueOfToString(n, 10);
  }

  /** The run of digits at the front of `d + rest` is exactly `d` when `d`
      is all digits and `rest` does not start with one. */
  lemma {:induction false} DigitPrefixOf(d: string, rest: string, radix: nat)
    requires forall i :: 0 <= i < |d| ==> IsDigit(d[i], radix)
    requires rest == [] || !IsDigit(rest[0], radix)
    ensures DigitPrefix(d + rest, radix) == |d|
  {
    if d != [] {
      assert (d + rest)[1..] == d[1..] + rest;
      DigitPrefixOf(d[1..], rest, radix);
    } else {
      assert d + rest == rest;
    }
  }
}
