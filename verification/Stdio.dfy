/** Number formatting and scanning (lib/stdio.c): what the texts are, as functions. */
module Stdio {
  import opened Words

  const INT_LIMIT := 0x8000_0000

  /** `char tmp[STR_DEFAULT_LEN]` in `vsscanf` */
  const STR_DEFAULT_LEN := 1024

  /** The `type` bits of `number`. */
  datatype Flags = Flags(zeropad: bool, sign: bool, plus: bool, space: bool, left: bool, special: bool, small: bool)

  const PLAIN := Flags(false, false, false, false, false, false, false)

  // ----- digits

  function DigitChar(d: int, small: bool): char
    requires 0 <= d < 36
  {
    if d < 10 then ('0' as int + d) as char
    else if small then ('a' as int + d - 10) as char
    else ('A' as int + d - 10) as char
  }

  function DigitOf(c: char): Option<int> {
    if '0' <= c <= '9' then Some(c as int - '0' as int)
    else if 'a' <= c <= 'f' then Some(c as int - 'a' as int + 10)
    else if 'A' <= c <= 'F' then Some(c as int - 'A' as int + 10)
    else None
  }

  lemma DigitBack(d: int, small: bool)
    requires 0 <= d < 16
    ensures DigitOf(DigitChar(d, small)) == Some(d)
  {
  }

  lemma DivBack(n: int, base: int)
    requires 0 <= n && 2 <= base
    ensures n / base * base + n % base == n && 0 <= n / base <= n && 0 <= n % base < base
  {
  }

  lemma Times(q: int, base: int)
    requires 0 <= q && 2 <= base
    ensures q * 2 <= q * base
  {
  }

  /** Dropping a digit at least halves a number. */
  lemma DivSmaller(n: int, base: int)
    requires 0 < n && 2 <= base
    ensures 0 <= n / base < n && n / base * 2 <= n
  {
    DivBack(n, base);
    Times(n / base, base);
  }

  lemma DivSmall(n: int, base: int)
    requires 0 <= n < base
    ensures n / base == 0 && n % base == n
  {
  }

  /** The digits of `n`, most significant first; "0" for 0. */
  function Digits(n: int, base: int, small: bool): (s: string)
    requires 0 <= n && 2 <= base <= 36
    ensures s != ""
    decreases n
  {
    if n < base then [DigitChar(n, small)]
    else
      DivSmaller(n, base);
      DivBack(n, base);
      Digits(n / base, base, small) + [DigitChar(n % base, small)]
  }

  function Pow2(n: nat): int { if n == 0 then 1 else 2 * Pow2(n - 1) }

  lemma Pow2Word()
    ensures Pow2(32) == COUNT_LIMIT
  {
    assert Pow2(8) == 256;
    assert Pow2(16) == 0x1_0000;
    assert Pow2(24) == 0x100_0000;
  }

  lemma Halved(n: int, base: int, k: nat)
    requires 2 <= base && 0 < n < Pow2(k)
    ensures k > 0 && 0 <= n / base < n && n / base < Pow2(k - 1)
  {
    DivSmaller(n, base);
  }

  /** 32 bits never need more than 32 digits. */
  lemma {:induction false} DigitsLength(n: int, base: int, small: bool, k: nat)
    requires 2 <= base <= 36 && 0 <= n < Pow2(k) && k > 0
    ensures |Digits(n, base, small)| <= k
    decreases k
  {
    if n >= base {
      Halved(n, base, k);
      DivBack(n, base);
      DigitsLength(n / base, base, small, k - 1);
    }
  }

  function Repeat(c: char, n: int): (s: string)
    ensures |s| == if n > 0 then n else 0
  {
    if n <= 0 then "" else Repeat(c, n - 1) + [c]
  }

  function Max(a: int, b: int): int { if a < b then b else a }

  // ----- number

  predicate Negative(num: Count, fl: Flags) { fl.sign && num >= INT_LIMIT }

  function Magnitude(num: Count, fl: Flags): Count { if Negative(num, fl) then COUNT_LIMIT - num else num }

  function SignText(num: Count, fl: Flags): string {
    if Negative(num, fl) then "-" else if fl.plus then "+" else if fl.space then " " else ""
  }

  function Prefix(base: int, fl: Flags): string {
    if fl.special && base == 8 then "0"
    else if fl.special && base == 16 then ['0', DigitChar(33, fl.small)]
    else ""
  }

  /** The sign, the prefix and the digits padded to the precision. */
  function Body(num: Count, base: int, precision: int, fl: Flags, more: int): string
    requires 2 <= base <= 36
  {
    var digits := Digits(Magnitude(num, fl), base, fl.small);
    SignText(num, fl) + Prefix(base, fl) + Repeat('0', more) + Repeat('0', precision - |digits|) + digits
  }

  /** Spaces in front of a field that is adjusted right. */
  function Front(fill: int, fl: Flags): string { if !fl.zeropad && !fl.left then Repeat(' ', fill) else "" }

  /** Zeros between the prefix and the digits that fill up the field. */
  function More(fill: int, fl: Flags): int { if fl.zeropad && !fl.left then fill else 0 }

  /** Spaces behind a field that is adjusted left. */
  function Back(fill: int, fl: Flags): string { if fl.left then Repeat(' ', fill) else "" }

  /** What `number` writes for a field of `size` characters. */
  function Rendered(num: Count, base: int, size: int, precision: int, fl: Flags): string
    requires 2 <= base <= 36
  {
    var fill := size - |Body(num, base, precision, fl, 0)|;
    Front(fill, fl) + Body(num, base, precision, fl, More(fill, fl)) + Back(fill, fl)
  }

  /** A field is as wide as asked for, or as wide as its text needs. */
  lemma FieldWidth(num: Count, base: int, size: int, precision: int, fl: Flags)
    requires 2 <= base <= 36
    ensures |Rendered(num, base, size, precision, fl)| ==
            Max(size, |SignText(num, fl)| + |Prefix(base, fl)|
                      + Max(precision, |Digits(Magnitude(num, fl), base, fl.small)|))
  {
  }

  // ----- atob

  /** The value of digits below `base`, in 32-bit arithmetic; none if some character is no
      such digit. */
  function Scanned(p: string, base: int): Option<Count> {
    if p == "" then Some(0)
    else
      match (Scanned(p[..|p| - 1], base), DigitOf(p[|p| - 1]))
      case (Some(v), Some(d)) => if d >= base then None else Some((v * base + d) % COUNT_LIMIT)
      case _ => None
  }

  predicate HexMark(p: string) { |p| >= 2 && p[0] == '0' && (p[1] == 'x' || p[1] == 'X') }

  /** The place of the first `c`, the length when there is none. */
  function Find(p: string, c: char): (n: nat)
    ensures n <= |p| && (n < |p| ==> p[n] == c) && (forall i :: 0 <= i < n ==> p[i] != c)
  {
    if p == "" || p[0] == c then 0 else 1 + Find(p[1..], c)
  }

  /** `_atob`: a mark "0x" makes the base 16. */
  function Atob(p: string, base: int): Option<Count>
    decreases |p|, 1
  {
    if HexMark(p) then Unmarked(p[2..], 16) else Unmarked(p, base)
  }

  /** In base 16 a '.' joins two halves, the first shifted up 16 bits; the first has at most
      19 characters. */
  function Unmarked(p: string, base: int): Option<Count>
    decreases |p|, 0
  {
    var dot := Find(p, '.');
    if base == 16 && dot < |p| then
      if dot > 19 || '.' in p[dot + 1..] then None
      else
        match (Atob(p[..dot], 16), Atob(p[dot + 1..], 16))
        case (Some(v1), Some(v2)) => Some((v1 * 0x1_0000 + v2) % COUNT_LIMIT)
        case _ => None
    else Scanned(p, base)
  }

  // ----- reading back what `number` wrote

  predicate AllDigits(p: string, base: int) {
    forall i :: 0 <= i < |p| ==> DigitOf(p[i]).Some? && DigitOf(p[i]).value < base
  }

  lemma Small(n: Count)
    ensures n % COUNT_LIMIT == n
  {
  }

  lemma ScannedOne(p: string, c: char, base: int, v: Count, n: Count)
    requires Scanned(p, base) == Some(v) && DigitOf(c).Some? && DigitOf(c).value < base
    requires n == v * base + DigitOf(c).value
    ensures Scanned(p + [c], base) == Some(n)
  {
    assert (p + [c])[..|p|] == p;
    Small(n);
  }

  lemma {:induction false} ZerosValue(n: int, base: int)
    requires 2 <= base
    ensures Scanned(Repeat('0', n), base) == Some(0)
    decreases n
  {
    if n > 0 {
      ZerosValue(n - 1, base);
      assert DigitOf('0') == Some(0);
      ScannedOne(Repeat('0', n - 1), '0', base, 0, 0);
    }
  }

  lemma {:induction false} DigitsValue(n: Count, base: int, small: bool, zeros: int)
    requires 2 <= base <= 16
    ensures Scanned(Repeat('0', zeros) + Digits(n, base, small), base) == Some(n)
    decreases n
  {
    var z := Repeat('0', zeros);
    if n < base {
      ZerosValue(zeros, base);
      DigitBack(n, small);
      ScannedOne(z, DigitChar(n, small), base, 0, n);
    } else {
      DivBack(n, base);
      DigitsValue(n / base, base, small, zeros);
      DigitBack(n % base, small);
      ScannedOne(z + Digits(n / base, base, small), DigitChar(n % base, small), base, n / base, n);
      assert z + Digits(n, base, small) == (z + Digits(n / base, base, small)) + [DigitChar(n % base, small)];
    }
  }

  /** A 32-bit word as a two's complement number. */
  function Signed(num: Count): int { if num >= INT_LIMIT then num - COUNT_LIMIT else num }

  /** What a sign and digits are worth to a reader. */
  function Worth(text: string, base: int): Option<int> {
    if text == "" then None
    else
      match Scanned(if text[0] == '-' || text[0] == '+' || text[0] == ' ' then text[1..] else text, base)
      case None => None
      case Some(n) => Some(if text[0] == '-' then 0 - n else n)
  }

  lemma {:induction false} ZerosAll(n: int)
    ensures forall i :: 0 <= i < |Repeat('0', n)| ==> Repeat('0', n)[i] == '0'
    decreases n
  {
    if n > 0 { ZerosAll(n - 1); }
  }

  lemma {:induction false} DigitsAll(n: int, base: int, small: bool, zeros: int)
    requires 0 <= n && 2 <= base <= 16
    ensures AllDigits(Repeat('0', zeros) + Digits(n, base, small), base)
    decreases n
  {
    ZerosAll(zeros);
    if n < base {
      DigitBack(n, small);
    } else {
      DigitsAll(n / base, base, small, zeros);
      DigitBack(n % base, small);
      assert Repeat('0', zeros) + Digits(n, base, small) ==
             (Repeat('0', zeros) + Digits(n / base, base, small)) + [DigitChar(n % base, small)];
    }
  }

  lemma DigitsWorth(n: Count, base: int, small: bool)
    requires 2 <= base <= 16
    ensures var d := Digits(n, base, small);
            d[0] != '-' && d[0] != '+' && d[0] != ' ' && Scanned(d, base) == Some(n)
  {
    var d := Digits(n, base, small);
    DigitsValue(n, base, small, 0);
    DigitsAll(n, base, small, 0);
    assert Repeat('0', 0) + d == d;
    assert DigitOf('-') == None && DigitOf('+') == None && DigitOf(' ') == None;
  }

  lemma SignWorth(sign: string, d: string, n: Count, base: int)
    requires sign == "" || sign == "-" || sign == "+" || sign == " "
    requires d != "" && d[0] != '-' && d[0] != '+' && d[0] != ' ' && Scanned(d, base) == Some(n)
    ensures Worth(sign + d, base) == Some(if sign == "-" then 0 - n else n)
  {
    if sign == "" {
      assert sign + d == d;
    } else {
      assert (sign + d)[0] == sign[0] && (sign + d)[1..] == d;
    }
  }

  /** The sign and the digits are worth the number, as a signed one when the conversion is
      signed, the least integer included. */
  lemma SignedValue(num: Count, base: int, fl: Flags)
    requires 2 <= base <= 16
    ensures Worth(SignText(num, fl) + Digits(Magnitude(num, fl), base, fl.small), base) ==
            Some(if fl.sign then Signed(num) else num)
  {
    var n := Magnitude(num, fl);
    DigitsWorth(n, base, fl.small);
    SignWorth(SignText(num, fl), Digits(n, base, fl.small), n, base);
  }

  lemma {:induction false} ZerosJoin(m: int, n: int)
    ensures Repeat('0', m) + Repeat('0', n) == Repeat('0', Max(m, 0) + Max(n, 0))
    decreases n
  {
    if n > 0 { ZerosJoin(m, n - 1); }
  }

  predicate Unsigned(num: Count, fl: Flags) { SignText(num, fl) == "" }

  /** Digits alone show no mark and no '.'. */
  lemma NoMarks(s: string, base: int)
    requires AllDigits(s, base)
    ensures !HexMark(s) && Find(s, '.') == |s|
  {
    assert DigitOf('x') == None && DigitOf('X') == None && DigitOf('.') == None;
  }

  /** Zeros and digits, without a prefix, are read back in their base. */
  lemma PlainBack(num: Count, base: int, small: bool, zeros: int)
    requires 2 <= base <= 16
    ensures Atob(Repeat('0', zeros) + Digits(num, base, small), base) == Some(num)
  {
    DigitsValue(num, base, small, zeros);
    DigitsAll(num, base, small, zeros);
    NoMarks(Repeat('0', zeros) + Digits(num, base, small), base);
  }

  lemma HexBack(num: Count, small: bool, zeros: int, mark: string)
    requires |mark| == 2 && HexMark(mark)
    ensures Atob(mark + (Repeat('0', zeros) + Digits(num, 16, small)), 16) == Some(num)
  {
    var s := Repeat('0', zeros) + Digits(num, 16, small);
    DigitsValue(num, 16, small, zeros);
    DigitsAll(num, 16, small, zeros);
    NoMarks(s, 16);
    assert HexMark(mark + s) && (mark + s)[2..] == s;
  }

  lemma Regroup(p: string, a: string, b: string, d: string)
    ensures "" + p + a + b + d == p + ((a + b) + d)
  {
  }

  lemma BodyShape(num: Count, base: int, precision: int, fl: Flags, more: int) returns (zeros: int)
    requires 2 <= base <= 36 && Unsigned(num, fl)
    ensures zeros >= 0
    ensures Body(num, base, precision, fl, more) == Prefix(base, fl) + (Repeat('0', zeros) + Digits(num, base, fl.small))
  {
    var digits := Digits(num, base, fl.small);
    ZerosJoin(more, precision - |digits|);
    Regroup(Prefix(base, fl), Repeat('0', more), Repeat('0', precision - |digits|), digits);
    zeros := Max(more, 0) + Max(precision - |digits|, 0);
  }

  lemma OctalZero(zeros: int, s: string)
    requires zeros >= 0
    ensures "0" + (Repeat('0', zeros) + s) == Repeat('0', zeros + 1) + s
  {
    assert Repeat('0', 1) == "0" by { assert Repeat('0', 0) == ""; }
    ZerosJoin(1, zeros);
  }

  /** Whatever the precision, the prefix and the zero padding, `_atob` reads back the number
      that was written, if no sign was. */
  lemma BodyBack(num: Count, base: int, precision: int, fl: Flags, more: int)
    requires (base == 8 || base == 10 || base == 16) && Unsigned(num, fl)
    ensures Atob(Body(num, base, precision, fl, more), base) == Some(num)
  {
    var n := BodyShape(num, base, precision, fl, more);
    var s := Repeat('0', n) + Digits(num, base, fl.small);
    if fl.special && base == 16 {
      HexBack(num, fl.small, n, Prefix(base, fl));
    } else if fl.special && base == 8 {
      OctalZero(n, Digits(num, base, fl.small));
      PlainBack(num, base, fl.small, n + 1);
    } else {
      assert "" + s == s;
      PlainBack(num, base, fl.small, n);
    }
  }

  /** `_atob` rejects any text with a sign in front. */
  lemma {:induction false} BadRejected(p: string, base: int, i: nat)
    requires i < |p| && DigitOf(p[i]) == None
    ensures Scanned(p, base) == None
    decreases |p|
  {
    if i < |p| - 1 { BadRejected(p[..|p| - 1], base, i); }
  }

  // ----- vsprintf

  predicate IsDigit(c: char) { '0' <= c <= '9' }

  predicate IsFlag(c: char) { c == '-' || c == '+' || c == ' ' || c == '#' || c == '0' }

  function WithFlag(fl: Flags, c: char): Flags {
    if c == '-' then fl.(left := true)
    else if c == '+' then fl.(plus := true)
    else if c == ' ' then fl.(space := true)
    else if c == '#' then fl.(special := true)
    else fl.(zeropad := true)
  }

  /** The flags at the head of `f`, and what follows them. */
  function FlagsOf(f: string, fl: Flags): (Flags, string) {
    if f != "" && IsFlag(f[0]) then FlagsOf(f[1..], WithFlag(fl, f[0])) else (fl, f)
  }

  /** `skip_atoi`: the decimal number at the head of `f`, on top of `i`, and what follows it. */
  function NumberOf(f: string, i: int): (int, string) {
    if f != "" && IsDigit(f[0]) then NumberOf(f[1..], i * 10 + (f[0] as int - '0' as int)) else (i, f)
  }

  predicate IsConversion(c: char) { c == 'o' || c == 'x' || c == 'X' || c == 'd' || c == 'i' || c == 'u' }

  function Base(c: char): int {
    if c == 'o' then 8 else if c == 'x' || c == 'X' then 16 else if c == 'b' then 2 else 10
  }

  function ConversionFlags(fl: Flags, c: char): Flags {
    if c == 'x' then fl.(small := true) else if c == 'd' || c == 'i' then fl.(sign := true) else fl
  }

  datatype Spec = Spec(fl: Flags, width: int, precision: int, rest: string)

  /** What stands between '%' and the conversion letter, which `rest` begins with. */
  function SpecOf(f: string): Spec {
    var (fl, g) := FlagsOf(f, PLAIN);
    var (width, h) := if g != "" && IsDigit(g[0]) then NumberOf(g, 0) else (-1, g);
    var (precision, rest) :=
      if h != "" && h[0] == '.' then if h[1..] != "" && IsDigit(h[1]) then NumberOf(h[1..], 0) else (0, h[1..])
      else (-1, h);
    Spec(fl, width, precision, rest)
  }

  /** The flag of character `x` is set. */
  predicate Flagged(fl: Flags, x: char) {
    if x == '-' then fl.left else if x == '+' then fl.plus else if x == ' ' then fl.space
    else if x == '#' then fl.special else x == '0' && fl.zeropad
  }

  /** `fl` is `was` with exactly the flags added whose characters stand in `pre`. */
  ghost predicate Sets(was: Flags, pre: string, fl: Flags) {
    && fl.sign == was.sign && fl.small == was.small
    && forall x :: IsFlag(x) ==> (Flagged(fl, x) <==> Flagged(was, x) || x in pre)
  }

  lemma InOneMore(x: char, c: char, more: string)
    ensures x in [c] + more <==> x == c || x in more
  {
    assert ([c] + more)[0] == c;
    if x in more {
      var i :| 0 <= i < |more| && more[i] == x;
      assert ([c] + more)[i + 1] == x;
    }
  }

  lemma OneFlag(was: Flags, c: char, x: char)
    requires IsFlag(c) && IsFlag(x)
    ensures Flagged(WithFlag(was, c), x) <==> Flagged(was, x) || x == c
  {
  }

  lemma SetsMore(was: Flags, c: char, more: string, mid: Flags, fl: Flags)
    requires Sets(mid, more, fl) && mid.sign == was.sign && mid.small == was.small
    requires forall x :: IsFlag(x) ==> (Flagged(mid, x) <==> Flagged(was, x) || x == c)
    ensures Sets(was, [c] + more, fl)
  {
    forall x: char ensures x in [c] + more <==> x == c || x in more { InOneMore(x, c, more); }
  }

  lemma FlagStep(was: Flags, c: char)
    requires IsFlag(c)
    ensures WithFlag(was, c).sign == was.sign && WithFlag(was, c).small == was.small
    ensures forall x :: IsFlag(x) ==> (Flagged(WithFlag(was, c), x) <==> Flagged(was, x) || x == c)
  {
    forall x | IsFlag(x) ensures Flagged(WithFlag(was, c), x) <==> Flagged(was, x) || x == c { OneFlag(was, c, x); }
  }

  lemma {:induction false} FlagsSet(pre: string, was: Flags)
    requires forall i :: 0 <= i < |pre| ==> IsFlag(pre[i])
    ensures Sets(was, pre, FlagsOf(pre, was).0)
    decreases |pre|
  {
    if pre != "" {
      var mid := WithFlag(was, pre[0]);
      FlagsSet(pre[1..], mid);
      FlagStep(was, pre[0]);
      SetsMore(was, pre[0], pre[1..], mid, FlagsOf(pre[1..], mid).0);
      assert [pre[0]] + pre[1..] == pre;
    }
  }

  lemma {:induction false} FlagsRead(pre: string, g: string, was: Flags)
    requires (forall i :: 0 <= i < |pre| ==> IsFlag(pre[i])) && (g == "" || !IsFlag(g[0]))
    ensures FlagsOf(pre + g, was) == (FlagsOf(pre, was).0, g)
    decreases |pre|
  {
    if pre == "" {
      assert pre + g == g;
    } else {
      assert (pre + g)[1..] == pre[1..] + g;
      FlagsRead(pre[1..], g, WithFlag(was, pre[0]));
    }
  }

  /** The flags read are exactly those whose characters stand before the first character that
      is no flag, in whatever order and however often. */
  lemma FlagsMeaning(pre: string, g: string)
    requires (forall i :: 0 <= i < |pre| ==> IsFlag(pre[i])) && (g == "" || !IsFlag(g[0]))
    ensures FlagsOf(pre + g, PLAIN).1 == g && Sets(PLAIN, pre, FlagsOf(pre + g, PLAIN).0)
  {
    FlagsRead(pre, g, PLAIN);
    FlagsSet(pre, PLAIN);
  }

  lemma {:induction false} DigitsRead(n: nat, rest: string)
    ensures NumberOf(Digits(n, 10, false) + rest, 0) == NumberOf(rest, n)
    decreases n
  {
    var d := [DigitChar(n % 10, false)];
    assert (d + rest)[1..] == rest;
    if n >= 10 {
      DivSmaller(n, 10);
      DigitsRead(n / 10, d + rest);
      var q := Digits(n / 10, 10, false);
      assert (q + d) + rest == q + (d + rest);
    }
  }

  /** A number written in decimal is read back. */
  lemma NumberBack(n: nat, rest: string)
    requires rest == "" || !IsDigit(rest[0])
    ensures NumberOf(Digits(n, 10, false) + rest, 0) == (n, rest)
  {
    DigitsRead(n, rest);
  }

  /** Only 0 begins with the digit 0, so a width is not mistaken for a flag. */
  lemma {:induction false} FirstDigit(n: nat)
    ensures IsDigit(Digits(n, 10, false)[0]) && (n > 0 ==> !IsFlag(Digits(n, 10, false)[0]))
    decreases n
  {
    if n >= 10 {
      DivSmaller(n, 10);
      DivBack(n, 10);
      FirstDigit(n / 10);
    }
  }

  /** Flags, a width and a precision written in front of a conversion are read back. */
  lemma SpecBack(pre: string, width: nat, precision: nat, g: string)
    requires (forall i :: 0 <= i < |pre| ==> IsFlag(pre[i])) && width > 0 && g != "" && IsConversion(g[0])
    ensures var sp := SpecOf(pre + (Digits(width, 10, false) + ("." + (Digits(precision, 10, false) + g))));
            Sets(PLAIN, pre, sp.fl) && sp == Spec(sp.fl, width, precision, g)
  {
    FlagsSet(pre, PLAIN);
    var p := Digits(precision, 10, false) + g;
    var h := "." + p;
    FirstDigit(width);
    FirstDigit(precision);
    FlagsRead(pre, Digits(width, 10, false) + h, PLAIN);
    NumberBack(width, h);
    NumberBack(precision, g);
    assert h[1..] == p;
  }

  lemma {:induction false} FlagsShorter(f: string, fl: Flags)
    ensures |FlagsOf(f, fl).1| <= |f|
    decreases |f|
  {
    if f != "" && IsFlag(f[0]) { FlagsShorter(f[1..], WithFlag(fl, f[0])); }
  }

  lemma {:induction false} NumberShorter(f: string, i: int)
    ensures |NumberOf(f, i).1| <= |f|
    decreases |f|
  {
    if f != "" && IsDigit(f[0]) { NumberShorter(f[1..], i * 10 + (f[0] as int - '0' as int)); }
  }

  lemma SpecShorter(f: string)
    ensures |SpecOf(f).rest| <= |f|
  {
    var (fl, g) := FlagsOf(f, PLAIN);
    FlagsShorter(f, PLAIN);
    NumberShorter(g, 0);
    var (width, h) := if g != "" && IsDigit(g[0]) then NumberOf(g, 0) else (-1, g);
    if h != "" { NumberShorter(h[1..], 0); }
  }

  function Field(num: Count, sp: Spec): string
    requires sp.rest != ""
  {
    Rendered(num, Base(sp.rest[0]), sp.width, sp.precision, ConversionFlags(sp.fl, sp.rest[0]))
  }

  /** The text of `fmt` with its integer conversions filled from `args`; none when the format
      has another conversion, or the arguments run out. */
  function Print(fmt: string, args: seq<Count>): Option<string>
    decreases |fmt|
  {
    if fmt == "" then Some("")
    else if fmt[0] != '%' then
      match Print(fmt[1..], args)
      case Some(t) => Some([fmt[0]] + t)
      case None => None
    else
      var sp := SpecOf(fmt[1..]);
      SpecShorter(fmt[1..]);
      if sp.rest == "" || !IsConversion(sp.rest[0]) || args == [] then None
      else
        match Print(sp.rest[1..], args[1..])
        case Some(t) => Some(Field(args[0], sp) + t)
        case None => None
  }

  // ----- vsscanf

  function Trim(s: string): (t: string)
    ensures |t| <= |s| && (t != "" ==> t[0] != ' ') && (s != "" && s[0] != ' ' ==> t == s)
  {
    if s != "" && s[0] == ' ' then Trim(s[1..]) else s
  }

  /** `strcspn(s, " ")` */
  function WordLength(s: string): (n: nat)
    ensures n <= |s| && (n < |s| ==> s[n] == ' ') && (forall i :: 0 <= i < n ==> s[i] != ' ')
  {
    if s == "" || s[0] == ' ' then 0 else 1 + WordLength(s[1..])
  }

  predicate IsScanned(c: char) { c == 'd' || c == 'o' || c == 'b' || c == 'x' || c == 'u' }

  /** Formats of plain integer conversions, each followed by a space or the end, and literal
      text, without spaces at the end. */
  predicate Scannable(f: string) {
    if f == "" then true
    else if f[0] == '%' then |f| >= 2 && IsScanned(f[1]) && (|f| == 2 || f[2] == ' ') && Scannable(f[2..])
    else if f[0] == ' ' then |f| > 1 && Scannable(f[1..])
    else Scannable(f[1..])
  }

  lemma {:induction false} TrimScannable(f: string)
    requires Scannable(f) && f != ""
    ensures Scannable(Trim(f)) && Trim(f) != ""
    decreases |f|
  {
    if f[0] == ' ' { TrimScannable(f[1..]); }
  }

  /** What is stored through the arguments, in order: none where nothing is stored. */
  function Scan(buf: string, f: string): seq<Option<Count>>
    requires Scannable(f)
    decreases |f|
  {
    if f == "" || buf == "" then []
    else
      TrimScannable(f);
      var g, b := Trim(f), Trim(buf);
      if g[0] == '%' then
        [Atob(b[..WordLength(b)], Base(g[1]))] + Scan(b[WordLength(b)..], g[2..])
      else if b == "" || b[0] != g[0] then []
      else Scan(b[1..], g[1..])
  }

  /** Every word that a conversion reads fits the buffer it is copied to. */
  predicate WordsFit(buf: string, f: string)
    requires Scannable(f)
    decreases |f|
  {
    if f == "" || buf == "" then true
    else
      TrimScannable(f);
      var g, b := Trim(f), Trim(buf);
      if g[0] == '%' then WordLength(b) < STR_DEFAULT_LEN && WordsFit(b[WordLength(b)..], g[2..])
      else if b == "" || b[0] != g[0] then true
      else WordsFit(b[1..], g[1..])
  }

  // ----- scanning undoes printing

  predicate Known(c: char) { c == 'u' || c == 'x' || c == 'o' || c == 'd' }

  /** "%c %c ... %c" */
  function FormatOf(cs: string): string
    requires cs != ""
  {
    if |cs| == 1 then "%" + cs else "%" + [cs[0]] + " " + FormatOf(cs[1..])
  }

  function Token(c: char, v: Count): string {
    Rendered(v, Base(c), -1, -1, ConversionFlags(PLAIN, c))
  }

  /** Words with single spaces between them. */
  function Spaced(ts: seq<string>): string
    requires ts != []
  {
    if |ts| == 1 then ts[0] else ts[0] + " " + Spaced(ts[1..])
  }

  function Tokens(cs: string, vs: seq<Count>): (ts: seq<string>)
    requires |vs| == |cs|
    ensures |ts| == |cs| && forall i :: 0 <= i < |cs| ==> ts[i] == Token(cs[i], vs[i])
  {
    if cs == "" then [] else [Token(cs[0], vs[0])] + Tokens(cs[1..], vs[1..])
  }

  /** What the conversions `cs` read from the words `ts`. */
  function Values(cs: string, ts: seq<string>): (r: seq<Option<Count>>)
    requires |ts| == |cs|
    ensures |r| == |cs| && forall i :: 0 <= i < |cs| ==> r[i] == Atob(ts[i], Base(cs[i]))
  {
    if cs == "" then [] else [Atob(ts[0], Base(cs[0]))] + Values(cs[1..], ts[1..])
  }

  /** Scanning gives back every value; only "%d" of a value above the signed range, which
      prints with a minus sign, stores nothing. */
  function ReadBack(c: char, v: Count): Option<Count> { if c == 'd' && v >= INT_LIMIT then None else Some(v) }

  lemma PlainSpec(f: string)
    requires f != "" && IsConversion(f[0])
    ensures SpecOf(f) == Spec(PLAIN, -1, -1, f)
  {
  }

  lemma PrintStep(c: char, v: Count, more: string, args: seq<Count>, f: string)
    requires Known(c) && f == "%" + [c] + more && args != [] && args[0] == v && Print(more, args[1..]).Some?
    ensures Print(f, args) == Some(Token(c, v) + Print(more, args[1..]).value)
  {
    PlainSpec(f[1..]);
    assert f[1..][1..] == more;
  }

  lemma PrintSpace(f: string, args: seq<Count>)
    requires Print(f, args).Some?
    ensures Print(" " + f, args) == Some(" " + Print(f, args).value)
  {
    assert (" " + f)[1..] == f;
  }

  lemma SpacedMore(t: string, ts: seq<string>)
    requires ts != []
    ensures Spaced([t] + ts) == t + (" " + Spaced(ts))
  {
    assert ([t] + ts)[1..] == ts;
  }

  lemma PrintMore(c: char, v: Count, g: string, text: string, args: seq<Count>)
    requires Known(c) && args != [] && args[0] == v && Print(g, args[1..]) == Some(text)
    ensures Print("%" + [c] + (" " + g), args) == Some(Token(c, v) + (" " + text))
  {
    PrintSpace(g, args[1..]);
    PrintStep(c, v, " " + g, args, "%" + [c] + (" " + g));
  }

  lemma FormatMore(cs: string)
    requires |cs| > 1
    ensures FormatOf(cs) == "%" + [cs[0]] + (" " + FormatOf(cs[1..]))
  {
  }

  lemma PrintOne(c: char, v: Count)
    requires Known(c)
    ensures Print("%" + [c], [v]) == Some(Token(c, v))
  {
    assert "%" + [c] + "" == "%" + [c] && Token(c, v) + "" == Token(c, v);
    PrintStep(c, v, "", [v], "%" + [c]);
  }

  lemma {:induction false} PrintFormat(cs: string, vs: seq<Count>)
    requires cs != "" && |vs| == |cs| && forall i :: 0 <= i < |cs| ==> Known(cs[i])
    ensures Print(FormatOf(cs), vs) == Some(Spaced(Tokens(cs, vs)))
    decreases |cs|
  {
    if |cs| == 1 {
      assert cs == [cs[0]] && vs == [vs[0]];
      PrintOne(cs[0], vs[0]);
    } else {
      var rest := Tokens(cs[1..], vs[1..]);
      PrintFormat(cs[1..], vs[1..]);
      FormatMore(cs);
      PrintMore(cs[0], vs[0], FormatOf(cs[1..]), Spaced(rest), vs);
      SpacedMore(Token(cs[0], vs[0]), rest);
    }
  }

  /** Without width, precision and flags a number is its sign and digits. */
  lemma Unpadded(num: Count, base: int, fl: Flags)
    requires 2 <= base <= 36 && !fl.left && !fl.zeropad && !fl.special
    ensures Rendered(num, base, -1, -1, fl) == SignText(num, fl) + Digits(Magnitude(num, fl), base, fl.small)
  {
    var t, d := SignText(num, fl), Digits(Magnitude(num, fl), base, fl.small);
    assert t + "" + Repeat('0', 0) + Repeat('0', -1 - |d|) + d == t + d;
    assert "" + (t + d) + "" == t + d;
  }

  /** A printed number is a sign or nothing and digits: no spaces. */
  lemma TokenShape(c: char, v: Count)
    requires Known(c)
    ensures Token(c, v) == if c == 'd' && v >= INT_LIMIT then "-" + Digits(COUNT_LIMIT - v, 10, false)
                           else Digits(v, Base(c), c == 'x')
    ensures Token(c, v) != "" && forall i :: 0 <= i < |Token(c, v)| ==> Token(c, v)[i] != ' '
  {
    var fl := ConversionFlags(PLAIN, c);
    var m := Magnitude(v, fl);
    DigitsAll(m, Base(c), c == 'x', 0);
    var d := Digits(m, Base(c), c == 'x');
    assert Repeat('0', 0) + d == d && "" + d == d;
    Unpadded(v, Base(c), fl);
    assert DigitOf(' ') == None;
  }

  lemma MinusRejected(p: string)
    requires p != "" && p[0] == '-'
    ensures Atob(p, 10) == None
  {
    BadRejected(p, 10, 0);
  }

  lemma TokenBack(c: char, v: Count)
    requires Known(c)
    ensures Atob(Token(c, v), Base(c)) == ReadBack(c, v)
  {
    TokenShape(c, v);
    if c == 'd' && v >= INT_LIMIT {
      MinusRejected("-" + Digits(COUNT_LIMIT - v, 10, false));
    } else {
      var d := Digits(v, Base(c), c == 'x');
      PlainBack(v, Base(c), c == 'x', 0);
      assert Repeat('0', 0) + d == d;
    }
  }

  lemma {:induction false} WordThenSpace(t: string, rest: string)
    requires (forall i :: 0 <= i < |t| ==> t[i] != ' ') && (rest == "" || rest[0] == ' ')
    ensures WordLength(t + rest) == |t|
  {
    var s := t + rest;
    assert forall i :: 0 <= i < |t| ==> s[i] == t[i];
    if rest != "" { assert s[|t|] == ' '; }
  }

  /** One conversion takes one word. */
  lemma ScanStep(t: string, rest: string, c: char, more: string, f: string)
    requires t != "" && (forall i :: 0 <= i < |t| ==> t[i] != ' ') && (rest == "" || rest[0] == ' ')
    requires f == "%" + [c] + more && Scannable(f)
    ensures Scannable(more) && Scan(t + rest, f) == [Atob(t, Base(c))] + Scan(rest, more)
  {
    WordThenSpace(t, rest);
    assert f[2..] == more;
    assert (t + rest)[..|t|] == t && (t + rest)[|t|..] == rest;
    assert Trim(t + rest) == t + rest && Trim(f) == f;
  }

  lemma {:induction false} FormatScannable(cs: string)
    requires cs != "" && forall i :: 0 <= i < |cs| ==> Known(cs[i])
    ensures Scannable(FormatOf(cs)) && FormatOf(cs)[0] == '%'
    ensures |cs| > 1 ==> Scannable(" " + FormatOf(cs[1..]))
    decreases |cs|
  {
    var f := FormatOf(cs);
    if |cs| == 1 {
      assert f[2..] == "";
    } else {
      FormatScannable(cs[1..]);
      var g := " " + FormatOf(cs[1..]);
      assert g[1..] == FormatOf(cs[1..]);
      assert f[2..] == g;
    }
  }

  /** Leading spaces of text and format do not matter. */
  lemma SpacesSkipped(buf: string, f: string)
    requires Scannable(f) && Scannable(" " + f) && buf != "" && buf[0] != ' ' && f != "" && f[0] != ' '
    ensures Scan(" " + buf, " " + f) == Scan(buf, f)
  {
    assert (" " + buf)[1..] == buf && (" " + f)[1..] == f;
    assert Trim(" " + buf) == Trim(buf) && Trim(" " + f) == Trim(f);
  }

  predicate IsWord(t: string) { t != "" && forall i :: 0 <= i < |t| ==> t[i] != ' ' }

  lemma {:induction false} ScanWords(cs: string, ts: seq<string>)
    requires cs != "" && |ts| == |cs|
    requires forall i :: 0 <= i < |cs| ==> Known(cs[i]) && IsWord(ts[i])
    ensures Scannable(FormatOf(cs))
    ensures Scan(Spaced(ts), FormatOf(cs)) == Values(cs, ts)
    decreases |cs|
  {
    FormatScannable(cs);
    var f := FormatOf(cs);
    if |cs| == 1 {
      assert f == "%" + [cs[0]] + "";
      ScanStep(ts[0], "", cs[0], "", f);
      assert ts[0] + "" == ts[0];
    } else {
      var rest, g := Spaced(ts[1..]), FormatOf(cs[1..]);
      ScanWords(cs[1..], ts[1..]);
      FormatScannable(cs[1..]);
      assert f == "%" + [cs[0]] + (" " + g) && Spaced(ts) == ts[0] + (" " + rest);
      ScanStep(ts[0], " " + rest, cs[0], " " + g, f);
      assert rest[0] == ts[1][0];
      SpacesSkipped(rest, g);
    }
  }

  /** Scan undoes print: for any list of 32-bit values and any of the conversions %u %x %o %d
      separated by single spaces, every value comes back, and the count is the number of
      conversions. */
  lemma ScanUndoesPrint(cs: string, vs: seq<Count>)
    requires cs != "" && |vs| == |cs| && forall i :: 0 <= i < |cs| ==> Known(cs[i])
    ensures Print(FormatOf(cs), vs).Some? && Scannable(FormatOf(cs))
    ensures var got := Scan(Print(FormatOf(cs), vs).value, FormatOf(cs));
            |got| == |cs| && forall i :: 0 <= i < |cs| ==> got[i] == ReadBack(cs[i], vs[i])
  {
    PrintFormat(cs, vs);
    forall i | 0 <= i < |cs|
      ensures IsWord(Tokens(cs, vs)[i]) && Atob(Tokens(cs, vs)[i], Base(cs[i])) == ReadBack(cs[i], vs[i])
    {
      TokenShape(cs[i], vs[i]);
      TokenBack(cs[i], vs[i]);
    }
    ScanWords(cs, Tokens(cs, vs));
  }

  // ----- printed numbers fit the scanner's buffer

  lemma FitStep(t: string, rest: string, c: char, more: string, f: string)
    requires t != "" && (forall i :: 0 <= i < |t| ==> t[i] != ' ') && (rest == "" || rest[0] == ' ')
    requires f == "%" + [c] + more && Scannable(f)
    ensures Scannable(more) && (WordsFit(t + rest, f) <==> |t| < STR_DEFAULT_LEN && WordsFit(rest, more))
  {
    WordThenSpace(t, rest);
    assert f[2..] == more;
    assert (t + rest)[..|t|] == t && (t + rest)[|t|..] == rest;
    assert Trim(t + rest) == t + rest && Trim(f) == f;
  }

  lemma FitSkipped(buf: string, f: string)
    requires Scannable(f) && Scannable(" " + f) && buf != "" && buf[0] != ' ' && f != "" && f[0] != ' '
    ensures WordsFit(" " + buf, " " + f) == WordsFit(buf, f)
  {
    assert (" " + buf)[1..] == buf && (" " + f)[1..] == f;
    assert Trim(" " + buf) == Trim(buf) && Trim(" " + f) == Trim(f);
  }

  /** However long the list, only the length of each word matters. */
  lemma {:induction false} SpacedFits(cs: string, ts: seq<string>)
    requires cs != "" && |ts| == |cs|
    requires forall i :: 0 <= i < |cs| ==> Known(cs[i]) && IsWord(ts[i])
    ensures Scannable(FormatOf(cs))
    ensures WordsFit(Spaced(ts), FormatOf(cs)) <==> forall i :: 0 <= i < |ts| ==> |ts[i]| < STR_DEFAULT_LEN
    decreases |cs|
  {
    FormatScannable(cs);
    var f := FormatOf(cs);
    if |cs| == 1 {
      assert f == "%" + [cs[0]] + "";
      FitStep(ts[0], "", cs[0], "", f);
      assert ts[0] + "" == ts[0];
    } else {
      var rest, g := Spaced(ts[1..]), FormatOf(cs[1..]);
      SpacedFits(cs[1..], ts[1..]);
      FormatScannable(cs[1..]);
      assert f == "%" + [cs[0]] + (" " + g) && Spaced(ts) == ts[0] + (" " + rest);
      FitStep(ts[0], " " + rest, cs[0], " " + g, f);
      assert rest[0] == ts[1][0];
      FitSkipped(rest, g);
      assert forall i :: 0 < i < |ts| ==> ts[i] == ts[1..][i - 1];
    }
  }

  lemma TokenLength(c: char, v: Count)
    requires Known(c)
    ensures IsWord(Token(c, v)) && |Token(c, v)| <= 33
  {
    TokenShape(c, v);
    Pow2Word();
    if c == 'd' && v >= INT_LIMIT {
      DigitsLength(COUNT_LIMIT - v, 10, false, 32);
    } else {
      DigitsLength(v, Base(c), c == 'x', 32);
    }
  }

  lemma PrintedFits(cs: string, vs: seq<Count>)
    requires cs != "" && |vs| == |cs| && forall i :: 0 <= i < |cs| ==> Known(cs[i])
    ensures Print(FormatOf(cs), vs).Some? && Scannable(FormatOf(cs))
    ensures WordsFit(Print(FormatOf(cs), vs).value, FormatOf(cs))
  {
    PrintFormat(cs, vs);
    var ts := Tokens(cs, vs);
    forall i | 0 <= i < |cs| ensures IsWord(ts[i]) && |ts[i]| < STR_DEFAULT_LEN { TokenLength(cs[i], vs[i]); }
    SpacedFits(cs, ts);
  }
}
