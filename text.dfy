/** The string operations the backend applies: `String.prototype.trim`,
    `toLowerCase`, `Array.prototype.join`, and the case-insensitive
    matching the book listing asks the store for, JavaScript's `length`
    and the way a number is written out in a validator's message.
    Characters outside ASCII are neither white space nor case-mapped here. */
module Text {
  import opened Common

  predicate IsWhiteSpace(c: char) {
    c == ' ' || c == '\t' || c == '\n' || c == '\r' || c == '\U{B}' || c == '\U{C}'
  }

  predicate NoLeadingSpace(s: string) {
    s == [] || !IsWhiteSpace(s[0])
  }

  predicate NoTrailingSpace(s: string) {
    s == [] || !IsWhiteSpace(s[|s| - 1])
  }

  predicate AllWhiteSpace(s: string) {
    forall i :: 0 <= i < |s| ==> IsWhiteSpace(s[i])
  }

  /** The length of the white space `s` starts with. */
  function LeadingSpaces(s: string): (n: nat)
    ensures n <= |s|
    ensures forall i :: 0 <= i < n ==> IsWhiteSpace(s[i])
    ensures n < |s| ==> !IsWhiteSpace(s[n])
  {
    if s != [] && IsWhiteSpace(s[0]) then
      var n := LeadingSpaces(s[1..]);
      assert forall i :: 1 <= i <= n ==> s[i] == s[1..][i - 1];
      1 + n
    else
      0
  }

  /** Leading white space removed. */
  function TrimStart(s: string): (r: string)
    ensures NoLeadingSpace(r)
    ensures |r| <= |s| && r == s[|s| - |r|..]
    ensures AllWhiteSpace(s[..|s| - |r|])
  {
    var n := LeadingSpaces(s);
    assert forall i :: 0 <= i < n ==> s[..n][i] == s[i];
    s[n..]
  }

  /** Trailing white space removed. */
  function TrimEnd(s: string): (r: string)
    ensures NoTrailingSpace(r)
    ensures |r| <= |s| && r == s[..|r|]
    ensures AllWhiteSpace(s[|r|..])
  {
    if s != [] && IsWhiteSpace(s[|s| - 1]) then
      var r := TrimEnd(s[..|s| - 1]);
      assert s[|r|..] == s[..|s| - 1][|r|..] + [s[|s| - 1]];
      r
    else
      s
  }

  /** `s.trim()`. */
  function Trim(s: string): string {
    TrimEnd(TrimStart(s))
  }

  lemma TrimEndKeepsNoLeadingSpace(s: string)
    requires NoLeadingSpace(s)
    ensures NoLeadingSpace(TrimEnd(s))
  {
    var r := TrimEnd(s);
    if r != [] {
      assert r[0] == s[0];
    }
  }

  lemma TrimStartOfTrimmed(s: string)
    requires NoLeadingSpace(s)
    ensures TrimStart(s) == s
  {
  }

  lemma TrimEndOfTrimmed(s: string)
    requires NoTrailingSpace(s)
    ensures TrimEnd(s) == s
  {
  }

  /** A trimmed string has no white space at either end, and is what is
      left of the input once white space is removed from both ends. */
  lemma TrimmedShape(s: string)
    ensures NoLeadingSpace(Trim(s)) && NoTrailingSpace(Trim(s))
    ensures exists i, j :: 0 <= i <= j <= |s| && Trim(s) == s[i..j] && AllWhiteSpace(s[..i]) && AllWhiteSpace(s[j..])
  {
    var a := TrimStart(s);
    TrimEndKeepsNoLeadingSpace(a);
    var i := |s| - |a|;
    var j := i + |TrimEnd(a)|;
    assert s[i..j] == a[..|TrimEnd(a)|];
    assert s[j..] == a[|TrimEnd(a)|..];
  }

  /** Trimming twice is trimming once. */
  lemma TrimIdempotent(s: string)
    ensures Trim(Trim(s)) == Trim(s)
  {
    var t := Trim(s);
    TrimmedShape(s);
    TrimStartOfTrimmed(t);
    TrimEndOfTrimmed(t);
  }

  /** The `trim` setter of an optional string field. */
  function TrimField(field: Option<string>): Option<string> {
    match field
    case None => None
    case Some(s) => Some(Trim(s))
  }

  /** The `trim` setter of an optional string path: a string is trimmed,
      `undefined` and `null` are kept. */
  function TrimPath(v: OptString): OptString {
    if v.Str? then Str(Trim(v.value)) else v
  }

  predicate IsTrimmed(s: string) {
    NoLeadingSpace(s) && NoTrailingSpace(s)
  }

  lemma TrimIsTrimmed(s: string)
    ensures IsTrimmed(Trim(s))
  {
    TrimmedShape(s);
  }

  /** The `trim` setter leaves a string path trimmed and keeps whether it
      is set, and to `null`. */
  lemma TrimPathTrimmed(v: OptString)
    ensures TrimPath(v).Str? <==> v.Str?
    ensures TrimPath(v).Null? <==> v.Null?
    ensures TrimPath(v).Str? ==> IsTrimmed(TrimPath(v).value)
  {
    if v.Str? { TrimIsTrimmed(v.value); }
  }

  /** A string with no white space at its ends is its own trim. */
  lemma TrimOfTrimmed(s: string)
    requires NoLeadingSpace(s) && NoTrailingSpace(s)
    ensures Trim(s) == s
  {
    TrimStartOfTrimmed(s);
    TrimEndOfTrimmed(s);
  }

  function LowerChar(c: char): char {
    if 'A' <= c <= 'Z' then (c as int + 32) as char else c
  }

  predicate IsLowerCase(s: string) {
    forall i :: 0 <= i < |s| ==> LowerChar(s[i]) == s[i]
  }

  /** `s.toLowerCase()`: the same length, every letter lower-cased. */
  function ToLower(s: string): (r: string)
    ensures |r| == |s|
    ensures forall i :: 0 <= i < |s| ==> r[i] == LowerChar(s[i])
  {
    seq(|s|, i requires 0 <= i < |s| => LowerChar(s[i]))
  }

  /** Lower-casing twice is lower-casing once, and a lower-case string is
      its own lower case. */
  lemma ToLowerIdempotent(s: string)
    ensures IsLowerCase(ToLower(s))
    ensures ToLower(ToLower(s)) == ToLower(s)
  {
  }

  lemma ToLowerOfLowerCase(s: string)
    requires IsLowerCase(s)
    ensures ToLower(s) == s
  {
  }

  /** Trimming keeps a lower-case string lower-case. */
  lemma TrimKeepsLowerCase(s: string)
    requires IsLowerCase(s)
    ensures IsLowerCase(Trim(s))
  {
    var a := TrimStart(s);
    SliceKeepsLowerCase(s, |s| - |a|, |s|);
    assert a == s[|s| - |a|..|s|];
    var t := TrimEnd(a);
    SliceKeepsLowerCase(a, 0, |t|);
    assert t == a[0..|t|];
  }

  lemma SliceKeepsLowerCase(s: string, i: nat, j: nat)
    requires IsLowerCase(s) && i <= j <= |s|
    ensures IsLowerCase(s[i..j])
  {
    forall k | 0 <= k < j - i ensures LowerChar(s[i..j][k]) == s[i..j][k] {
      assert s[i..j][k] == s[i + k];
    }
  }

  lemma LowerCharKeepsWhiteSpace(c: char)
    ensures IsWhiteSpace(LowerChar(c)) <==> IsWhiteSpace(c)
  {
  }

  /** Lower-casing does not touch white space, so trimming and
      lower-casing commute (the store's `lowercase` and `trim` setters may
      run in either order). */
  lemma {:induction false} LeadingSpacesToLower(s: string)
    ensures LeadingSpaces(ToLower(s)) == LeadingSpaces(s)
  {
    if s != [] {
      LowerCharKeepsWhiteSpace(s[0]);
      assert ToLower(s)[1..] == ToLower(s[1..]);
      if IsWhiteSpace(s[0]) {
        LeadingSpacesToLower(s[1..]);
      }
    }
  }

  lemma TrimStartToLower(s: string)
    ensures TrimStart(ToLower(s)) == ToLower(TrimStart(s))
  {
    LeadingSpacesToLower(s);
    var n := LeadingSpaces(s);
    assert ToLower(s)[n..] == ToLower(s[n..]);
  }

  lemma ToLowerPrefix(s: string, n: nat)
    requires n <= |s|
    ensures ToLower(s)[..n] == ToLower(s[..n])
  {
  }

  lemma {:induction false} TrimEndToLower(s: string)
    ensures TrimEnd(ToLower(s)) == ToLower(TrimEnd(s))
  {
    if s != [] {
      LowerCharKeepsWhiteSpace(s[|s| - 1]);
      ToLowerPrefix(s, |s| - 1);
      if IsWhiteSpace(s[|s| - 1]) {
        TrimEndToLower(s[..|s| - 1]);
      }
    }
  }

  lemma TrimToLowerCommute(s: string)
    ensures Trim(ToLower(s)) == ToLower(Trim(s))
  {
    TrimStartToLower(s);
    TrimEndToLower(TrimStart(s));
  }

  /** `xs.join(sep)`. */
  function Join(xs: seq<string>, sep: string): string {
    if xs == [] then ""
    else if |xs| == 1 then xs[0]
    else xs[0] + sep + Join(xs[1..], sep)
  }

  predicate IsPrefix(p: string, s: string) {
    |p| <= |s| && s[..|p|] == p
  }

  /** `p` occurs in `s` at offset `i`. */
  predicate InfixAt(p: string, s: string, i: int) {
    0 <= i <= |s| - |p| && s[i..i + |p|] == p
  }

  /** `p` occurs somewhere in `s`. */
  ghost predicate IsInfix(p: string, s: string) {
    exists i :: InfixAt(p, s, i)
  }

  /** A slice of the tail is the slice one place further along. */
  lemma TailSlice(s: string, i: nat, n: nat)
    requires 1 <= i && i + n <= |s|
    ensures s[1..][i - 1..i - 1 + n] == s[i..i + n]
  {
    var t, u := s[1..][i - 1..i - 1 + n], s[i..i + n];
    forall k | 0 <= k < n ensures t[k] == u[k] {
      assert s[1..][i - 1 + k] == s[i + k];
    }
    assert t == u;
  }

  /** Infix search, as the store runs it. */
  function Contains(s: string, p: string): (r: bool)
    ensures r <==> IsInfix(p, s)
  {
    if IsPrefix(p, s) then
      assert InfixAt(p, s, 0);
      true
    else if |s| <= |p| then
      false
    else
      var r := Contains(s[1..], p);
      assert r ==> IsInfix(p, s) by {
        if r {
          var i :| InfixAt(p, s[1..], i);
          TailSlice(s, i + 1, |p|);
          assert InfixAt(p, s, i + 1);
        }
      }
      assert IsInfix(p, s) ==> r by {
        if IsInfix(p, s) {
          var i :| InfixAt(p, s, i);
          assert i != 0;
          TailSlice(s, i, |p|);
          assert InfixAt(p, s[1..], i - 1);
        }
      }
      r
  }

  /** Every listed field occurs in the joined string. */
  lemma {:induction false} JoinContainsEach(xs: seq<string>, sep: string, k: nat)
    requires k < |xs|
    ensures IsInfix(xs[k], Join(xs, sep))
  {
    var j := Join(xs, sep);
    if |xs| == 1 {
      assert InfixAt(xs[0], j, 0);
    } else if k == 0 {
      assert j[0..|xs[0]|] == xs[0];
      assert InfixAt(xs[0], j, 0);
    } else {
      JoinContainsEach(xs[1..], sep, k - 1);
      var rest := Join(xs[1..], sep);
      assert xs[1..][k - 1] == xs[k];
      var i :| InfixAt(xs[k], rest, i);
      var off := |xs[0]| + |sep|;
      assert j == xs[0] + sep + rest;
      assert j[off + i..off + i + |xs[k]|] == rest[i..i + |xs[k]|];
      assert InfixAt(xs[k], j, off + i);
    }
  }

  /** `hay` matches the unanchored pattern `needle` with the `i` flag
      (pattern characters taken literally). */
  predicate ContainsIgnoreCase(hay: string, needle: string) {
    Contains(ToLower(hay), ToLower(needle))
  }

  /** `s` matches the anchored pattern `^pattern$` with the `i` flag. */
  predicate EqualsIgnoreCase(s: string, pattern: string) {
    ToLower(s) == ToLower(pattern)
  }

  /** Case-insensitive equality implies case-insensitive containment. */
  lemma EqualsImpliesContains(s: string, p: string)
    requires EqualsIgnoreCase(s, p)
    ensures ContainsIgnoreCase(s, p)
  {
    assert InfixAt(ToLower(p), ToLower(s), 0);
  }

  /** Lexicographic order on strings (by character code), as the store
      compares titles. */
  predicate StringLe(a: string, b: string) {
    if a == [] then true
    else if b == [] then false
    else if a[0] != b[0] then a[0] < b[0]
    else StringLe(a[1..], b[1..])
  }

  lemma {:induction false} StringLeTotal(a: string, b: string)
    ensures StringLe(a, b) || StringLe(b, a)
  {
    if a != [] && b != [] && a[0] == b[0] {
      StringLeTotal(a[1..], b[1..]);
    }
  }

  lemma {:induction false} StringLeTransitive(a: string, b: string, c: string)
    requires StringLe(a, b) && StringLe(b, c)
    ensures StringLe(a, c)
  {
    if a != [] && b != [] && c != [] && a[0] == b[0] && b[0] == c[0] {
      StringLeTransitive(a[1..], b[1..], c[1..]);
    }
  }

  // ---------------------------------------------------------------------
  // JavaScript's `length`

  /** The UTF-16 code units of a character: two outside the Basic
      Multilingual Plane, one inside it. */
  function CodeUnits(c: char): nat {
    if c as int >= 0x1_0000 then 2 else 1
  }

  /** `s.length`, which counts UTF-16 code units: between one and two per
      character, exactly one per character when all of them lie in the
      Basic Multilingual Plane and two when none does. */
  function Utf16Length(s: string): (n: nat)
    ensures |s| <= n <= 2 * |s|
    ensures (forall i :: 0 <= i < |s| ==> s[i] as int < 0x1_0000) ==> n == |s|
    ensures (forall i :: 0 <= i < |s| ==> s[i] as int >= 0x1_0000) ==> n == 2 * |s|
  {
    if s == [] then 0
    else
      var rest := Utf16Length(s[1..]);
      assert forall i :: 0 <= i < |s[1..]| ==> s[1..][i] == s[i + 1];
      CodeUnits(s[0]) + rest
  }

  // ---------------------------------------------------------------------
  // Numbers as a message quotes them

  function DigitChar(d: nat): (c: char)
    requires d < 10
    ensures '0' <= c <= '9'
  {
    (48 + d) as char
  }

  /** The decimal digits of `n`, without leading zeros. */
  function NatText(n: nat): (s: string)
    ensures |s| > 0 && (|s| > 1 ==> s[0] != '0')
    ensures forall i :: 0 <= i < |s| ==> '0' <= s[i] <= '9'
  {
    if n < 10 then [DigitChar(n)] else NatText(n / 10) + [DigitChar(n % 10)]
  }

  /** The number a string of decimal digits denotes. */
  function DigitsValue(s: string): nat
    requires forall i :: 0 <= i < |s| ==> '0' <= s[i] <= '9'
  {
    if s == [] then 0 else DigitsValue(s[..|s| - 1]) * 10 + (s[|s| - 1] as int - 48)
  }

  /** Reading the digits back gives the number. */
  lemma {:induction false} NatTextValue(n: nat)
    ensures DigitsValue(NatText(n)) == n
  {
    if n >= 10 {
      var t := NatText(n);
      assert t[..|t| - 1] == NatText(n / 10);
      NatTextValue(n / 10);
    }
  }

  /** `String(n)` of a whole number. */
  function IntText(n: int): string {
    if n < 0 then "-" + NatText(-n) else NatText(n)
  }

  /** `NatText(n)`, with zeros in front up to `width` digits. */
  function PaddedText(n: nat, width: nat): (s: string)
    ensures |s| >= width
  {
    var t := NatText(n);
    if |t| >= width then t else seq(width - |t|, _ => '0') + t
  }

  function Pow10(k: nat): (p: nat)
    ensures p >= 1
  {
    if k == 0 then 1 else 10 * Pow10(k - 1)
  }

  const MaxFractionDigits: nat := 20

  predicate IsWhole(x: real) {
    x == x.Floor as real
  }

  /** `x * 10^k`. */
  function Shift(x: real, k: nat): real {
    x * (Pow10(k) as real)
  }

  /** The fewest decimal places, from `k` on, that write `x` exactly, or
      `MaxFractionDigits` when none up to there does. */
  function DecimalPlaces(x: real, k: nat): (places: nat)
    requires k <= MaxFractionDigits
    ensures k <= places <= MaxFractionDigits
    ensures places < MaxFractionDigits ==> IsWhole(Shift(x, places))
    decreases MaxFractionDigits - k
  {
    if k == MaxFractionDigits then k
    else if IsWhole(Shift(x, k)) then k
    else DecimalPlaces(x, k + 1)
  }

  /** `x` scaled by `10^k` and cut to a whole number. */
  function Scaled(x: real, k: nat): nat
    requires x >= 0.0
  {
    var y := Shift(x, k);
    assert y >= 0.0 by {
      assert Pow10(k) as real >= 1.0;
    }
    y.Floor
  }

  /** The digits of `m` in front of the last `k` (`m / 10^k`). */
  function WholePart(m: nat, k: nat): nat {
    if k == 0 then m else WholePart(m / 10, k - 1)
  }

  /** The last `k` digits of `m` (`m % 10^k`). */
  function FractionPart(m: nat, k: nat): nat {
    if k == 0 then 0 else m % 10 + 10 * FractionPart(m / 10, k - 1)
  }

  /** The digits of `m / 10^k` written with `k` decimal places. */
  function FixedText(m: nat, k: nat): string {
    NatText(WholePart(m, k)) + (if k == 0 then "" else "." + PaddedText(FractionPart(m, k), k))
  }

  /** `String(x)` as a validator's message quotes a number: a sign for a
      negative value, the whole part, and the fewest decimal places that
      write the value exactly. */
  function NumberText(x: real): string {
    var magnitude := if x < 0.0 then -x else x;
    var digits := FixedText(Scaled(magnitude, DecimalPlaces(magnitude, 0)), DecimalPlaces(magnitude, 0));
    if x < 0.0 then "-" + digits else digits
  }

  /** A whole number is written with its digits and no decimal point. */
  lemma NumberTextOfWhole(n: int)
    ensures NumberText(n as real) == IntText(n)
  {
    var magnitude := if n < 0 then (-n) as real else n as real;
    assert IsWhole(Shift(magnitude, 0));
    assert DecimalPlaces(magnitude, 0) == 0;
    assert Scaled(magnitude, 0) == if n < 0 then -n else n;
  }

  /** A value with one decimal place keeps it: -0.5 is written "-0.5". */
  lemma NumberTextOfHalf()
    ensures NumberText(-0.5) == "-0.5"
  {
    assert !IsWhole(Shift(0.5, 0));
    assert IsWhole(Shift(0.5, 1));
    assert DecimalPlaces(0.5, 0) == 1;
    assert Scaled(0.5, 1) == 5;
    assert WholePart(5, 1) == 0;
    assert FractionPart(5, 1) == 5;
    assert PaddedText(5, 1) == "5";
  }
}
