/** The formatting and scanning loops of lib/stdio.c, against the texts of `Stdio`. */
module Printf {
  import opened Words
  import opened Stdio

  // ----- number

  function Reversed(s: string): string { if s == "" then "" else [s[|s| - 1]] + Reversed(s[..|s| - 1]) }

  /** `while (n-- > 0) *str++ = c;` */
  method Fill(out: string, c: char, n: int) returns (s: string, left: int)
    ensures s == out + Repeat(c, n) && left == if n > 0 then -1 else n - 1
  {
    s, left := out, n;
    while left > 0
      invariant left <= n && (n > 0 ==> left >= 0) && (n <= 0 ==> left == n)
      invariant s == out + Repeat(c, n - left)
      decreases left
    {
      s := s + [c];
      left := left - 1;
    }
    left := left - 1;
  }

  lemma ReversedOne(s: string, c: char)
    ensures Reversed(s + [c]) == [c] + Reversed(s)
  {
    assert (s + [c])[..|s|] == s;
  }

  /** The digits of `n`, none for 0. */
  function Rest(n: int, base: int, small: bool): string
    requires 0 <= n && 2 <= base <= 36
  {
    if n == 0 then "" else Digits(n, base, small)
  }

  lemma RestOne(n: int, base: int, small: bool, tail: string)
    requires 0 < n && 2 <= base <= 36
    ensures n / base >= 0 && Rest(n / base, base, small) + ([DigitChar(n % base, small)] + tail) == Rest(n, base, small) + tail
  {
    DivBack(n, base);
    if n < base {
      DivSmall(n, base);
    } else {
      var d := Digits(n / base, base, small);
      assert (d + [DigitChar(n % base, small)]) + tail == d + ([DigitChar(n % base, small)] + tail);
    }
  }

  method PutDigit(tmp: array<char>, i: int, c: char)
    requires 0 <= i < tmp.Length
    modifies tmp
    ensures tmp[..i + 1] == old(tmp[..i]) + [c]
  {
    tmp[i] := c;
  }

  /** The digits, last first, in a buffer of 36 characters: 32 bits never need more. */
  method DigitBuffer(num: Count, base: int, small: bool) returns (tmp: array<char>, count: int)
    requires 2 <= base <= 36
    ensures fresh(tmp) && 0 < count <= tmp.Length == 36
    ensures Reversed(tmp[..count]) == Digits(num, base, small)
  {
    tmp := new char[36];
    var n: int, i: int := num, 0;
    Pow2Word();
    if n == 0 {
      tmp[0] := '0';
      i := 1;
      assert Reversed(tmp[..1]) == "0";
    } else {
      while n != 0
        invariant 0 <= i <= 32 && 0 <= n < Pow2(32 - i) && (n == 0 ==> i > 0)
        invariant Rest(n, base, small) + Reversed(tmp[..i]) == Digits(num, base, small)
        decreases n
      {
        Halved(n, base, 32 - i);
        RestOne(n, base, small, Reversed(tmp[..i]));
        ReversedOne(tmp[..i], DigitChar(n % base, small));
        PutDigit(tmp, i, DigitChar(n % base, small));
        n := n / base;
        i := i + 1;
      }
    }
    count := i;
  }

  /** The digits from the buffer, last first. */
  method CopyBack(out0: string, tmp: array<char>, count: int) returns (out: string)
    requires 0 <= count <= tmp.Length
    ensures out == out0 + Reversed(tmp[..count])
  {
    out := out0;
    var i := count;
    while i > 0
      invariant 0 <= i <= count
      invariant out + Reversed(tmp[..i]) == out0 + Reversed(tmp[..count])
      decreases i
    {
      i := i - 1;
      ReversedOne(tmp[..i], tmp[i]);
      assert tmp[..i + 1] == tmp[..i] + [tmp[i]];
      out := out + [tmp[i]];
    }
    assert out + "" == out;
  }

  method PutPrefix(out0: string, base: int, fl: Flags) returns (out: string)
    ensures out == out0 + Prefix(base, fl)
  {
    out := out0;
    if fl.special {
      if base == 8 {
        out := out + "0";
      } else if base == 16 {
        out := out + "0";
        out := out + [DigitChar(33, fl.small)];
      }
    }
  }

  /** The writing half of `number`; `fill` is what the field has left for padding. */
  method Lay(sign: string, base: int, tmp: array<char>, count: int, zeros: int, fill: int, fl: Flags) returns (out: string)
    requires 0 <= count <= tmp.Length && (fl.left ==> !fl.zeropad)
    ensures out == Front(fill, fl) + sign + Prefix(base, fl) + Repeat('0', More(fill, fl)) + Repeat('0', zeros)
                   + Reversed(tmp[..count]) + Back(fill, fl)
  {
    var room := fill;
    out := "";
    if !fl.zeropad && !fl.left {
      out, room := Fill(out, ' ', room);
    }
    assert out == Front(fill, fl);
    out := out + sign;
    out := PutPrefix(out, base, fl);
    ghost var head := out;
    if !fl.left {
      out, room := Fill(out, if fl.zeropad then '0' else ' ', room);
    }
    assert out == head + Repeat('0', More(fill, fl));
    var rest;
    out, rest := Fill(out, '0', zeros);
    out := CopyBack(out, tmp, count);
    out, room := Fill(out, ' ', room);
  }

  method SignOf(num: Count, fl: Flags) returns (sign: string, n: Count)
    ensures sign == SignText(num, fl) && n == Magnitude(num, fl)
  {
    n := num;
    if fl.sign && num >= INT_LIMIT {
      sign := "-";
      n := COUNT_LIMIT - num;
    } else if fl.plus {
      sign := "+";
    } else if fl.space {
      sign := " ";
    } else {
      sign := "";
    }
  }

  /** What a field of `size` leaves for digits and padding. */
  method Available(sign: string, base: int, size: int, fl: Flags) returns (room: int)
    requires |sign| <= 1
    ensures room == size - |sign| - |Prefix(base, fl)|
  {
    room := size;
    if sign != "" { room := room - 1; }
    if fl.special {
      if base == 16 { room := room - 2; } else if base == 8 { room := room - 1; }
    }
  }

  lemma {:induction false} ReversedLength(s: string)
    ensures |Reversed(s)| == |s|
    decreases |s|
  {
    if s != "" { ReversedLength(s[..|s| - 1]); }
  }

  /** Adjusted left, zero padding does not matter. */
  lemma LeftNotZero(num: Count, base: int, size: int, precision: int, fl: Flags)
    requires 2 <= base <= 36
    ensures fl.left ==> Rendered(num, base, size, precision, fl) == Rendered(num, base, size, precision, fl.(zeropad := false))
  {
    var gl := fl.(zeropad := false);
    assert Body(num, base, precision, fl, 0) == Body(num, base, precision, gl, 0);
  }

  lemma Chain(f: string, s: string, p: string, m: string, z: string, d: string, b: string)
    ensures f + s + p + m + z + d + b == f + (s + p + m + z + d) + b
  {
  }

  /** The field from its parts: a precision below the number of digits is that number. */
  lemma Assembled(num: Count, base: int, size: int, precision: int, fl: Flags, prec: int, room: int)
    requires 2 <= base <= 36
    requires prec == Max(precision, |Digits(Magnitude(num, fl), base, fl.small)|)
    requires room == size - |SignText(num, fl)| - |Prefix(base, fl)| - prec
    ensures var digits := Digits(Magnitude(num, fl), base, fl.small);
            Rendered(num, base, size, precision, fl) ==
              Front(room, fl) + SignText(num, fl) + Prefix(base, fl) + Repeat('0', More(room, fl))
              + Repeat('0', prec - |digits|) + digits + Back(room, fl)
  {
    var digits := Digits(Magnitude(num, fl), base, fl.small);
    assert Repeat('0', prec - |digits|) == Repeat('0', precision - |digits|);
    assert |Body(num, base, precision, fl, 0)| == |SignText(num, fl)| + |Prefix(base, fl)| + prec;
    Chain(Front(room, fl), SignText(num, fl), Prefix(base, fl), Repeat('0', More(room, fl)),
          Repeat('0', prec - |digits|), digits, Back(room, fl));
  }

  /** `number`: none for a base it does not print. */
  method Number(num: Count, base: int, size: int, precision: int, fl0: Flags) returns (r: Option<string>)
    ensures r == if 2 <= base <= 36 then Some(Rendered(num, base, size, precision, fl0)) else None
  {
    var fl, prec := fl0, precision;
    if fl.left { fl := fl.(zeropad := false); }
    if base < 2 || base > 36 { return None; }
    LeftNotZero(num, base, size, precision, fl0);
    var sign, n := SignOf(num, fl);
    var room := Available(sign, base, size, fl);
    var tmp, count := DigitBuffer(n, base, fl.small);
    ReversedLength(tmp[..count]);
    if count > prec { prec := count; }
    room := room - prec;
    var out := Lay(sign, base, tmp, count, prec - count, room, fl);
    Assembled(num, base, size, precision, fl, prec, room);
    r := Some(out);
  }

  // ----- vsprintf; a pointer into a text is the text from there on

  method ParseFlags(f: string) returns (fl: Flags, g: string)
    ensures (fl, g) == FlagsOf(f, PLAIN)
  {
    fl, g := PLAIN, f;
    while g != "" && IsFlag(g[0])
      invariant FlagsOf(g, fl) == FlagsOf(f, PLAIN)
      decreases |g|
    {
      if g[0] == '-' { fl := fl.(left := true); }
      else if g[0] == '+' { fl := fl.(plus := true); }
      else if g[0] == ' ' { fl := fl.(space := true); }
      else if g[0] == '#' { fl := fl.(special := true); }
      else { fl := fl.(zeropad := true); }
      g := g[1..];
    }
  }

  lemma Regrouped<T>(a: seq<T>, b: seq<T>, c: seq<T>)
    ensures (a + b) + c == a + (b + c)
  {
  }

  lemma {:induction false} NumberGrows(f: string, i: int)
    requires 0 <= i
    ensures 0 <= NumberOf(f, i).0
    decreases |f|
  {
    if f != "" && IsDigit(f[0]) { NumberGrows(f[1..], i * 10 + (f[0] as int - '0' as int)); }
  }

  lemma NumberPositive(f: string)
    ensures forall g :: 0 <= NumberOf(g, 0).0
  {
    forall g ensures 0 <= NumberOf(g, 0).0 { NumberGrows(g, 0); }
  }

  method SkipAtoi(f: string) returns (i: int, g: string)
    ensures (i, g) == NumberOf(f, 0)
  {
    i, g := 0, f;
    while g != "" && IsDigit(g[0])
      invariant NumberOf(g, i) == NumberOf(f, 0)
      decreases |g|
    {
      i := i * 10 + (g[0] as int - '0' as int);
      g := g[1..];
    }
  }

  method ParseSpec(f: string) returns (sp: Spec)
    ensures sp == SpecOf(f)
  {
    var fl, g := ParseFlags(f);
    var width, precision := -1, -1;
    if g != "" && IsDigit(g[0]) {
      width, g := SkipAtoi(g);
    }
    if g != "" && g[0] == '.' {
      g := g[1..];
      if g != "" && IsDigit(g[0]) {
        precision, g := SkipAtoi(g);
      }
      if precision < 0 { precision := 0; }
    }
    sp := Spec(fl, width, precision, g);
    assert sp == SpecOf(f) by { NumberPositive(f); }
  }

  /** `vsprintf` for formats of integer conversions with flags, width and precision. */
  method Vsprintf(fmt: string, args: seq<Count>) returns (out: string, len: int)
    requires Print(fmt, args).Some?
    ensures Some(out) == Print(fmt, args) && len == |out|
  {
    var s, rest := fmt, args;
    out := "";
    while s != ""
      invariant Print(s, rest).Some? && out + Print(s, rest).value == Print(fmt, args).value
      decreases |s|
    {
      ghost var before := out;
      if s[0] != '%' {
        out := out + [s[0]];
        s := s[1..];
        Regrouped(before, out[|before|..], Print(s, rest).value);
      } else {
        SpecShorter(s[1..]);
        var sp := ParseSpec(s[1..]);
        var fl, base := sp.fl, 10;
        var c := sp.rest[0];
        if c == 'o' { base := 8; }
        else if c == 'x' { fl := fl.(small := true); base := 16; }
        else if c == 'X' { base := 16; }
        else if c == 'd' || c == 'i' { fl := fl.(sign := true); }
        var text := Number(rest[0], base, sp.width, sp.precision, fl);
        out := out + text.value;
        s, rest := sp.rest[1..], rest[1..];
        Regrouped(before, text.value, Print(s, rest).value);
      }
    }
    assert out + "" == out;
    len := |out|;
  }

  // ----- vsscanf

  lemma {:induction false} ScannedStops(p: string, base: int, i: nat)
    requires i < |p| && (DigitOf(p[i]).None? || DigitOf(p[i]).value >= base)
    ensures Scanned(p, base) == None
    decreases |p|
  {
    if i < |p| - 1 { ScannedStops(p[..|p| - 1], base, i); }
  }

  /** The digits loop of `_atob`: it stops at the first character that is no digit. */
  method ReadDigits(p: string, base: int) returns (r: Option<Count>)
    ensures r == Scanned(p, base)
  {
    var value: Count := 0;
    var i := 0;
    while i < |p|
      invariant 0 <= i <= |p| && Scanned(p[..i], base) == Some(value)
    {
      var c := p[i];
      var digit;
      if '0' <= c <= '9' { digit := c as int - '0' as int; }
      else if 'a' <= c <= 'f' { digit := c as int - 'a' as int + 10; }
      else if 'A' <= c <= 'F' { digit := c as int - 'A' as int + 10; }
      else { ScannedStops(p, base, i); return None; }
      assert p[..i + 1][..i] == p[..i];
      if digit >= base { ScannedStops(p, base, i); return None; }
      value := (value * base + digit) % COUNT_LIMIT;
      i := i + 1;
    }
    assert p[..i] == p;
    r := Some(value);
  }

  /** `_atob` */
  method ReadNumber(p0: string, base0: int) returns (r: Option<Count>)
    ensures r == Atob(p0, base0)
    decreases |p0|, 1
  {
    var p, base := p0, base0;
    if |p| >= 2 && p[0] == '0' && (p[1] == 'x' || p[1] == 'X') {
      base := 16;
      p := p[2..];
    }
    r := ReadUnmarked(p, base);
  }

  /** `_atob`, once the base is known. */
  method ReadUnmarked(p: string, base: int) returns (r: Option<Count>)
    ensures r == Unmarked(p, base)
    decreases |p|, 0
  {
    var dot := Find(p, '.');
    if base == 16 && dot < |p| {
      if dot > 20 - 1 { return None; }
      var v1 := ReadNumber(p[..dot], 16);
      if v1.None? { return None; }
      var q := p[dot + 1..];
      if '.' in q { return None; }
      var v2 := ReadNumber(q, 16);
      if v2.None? { return None; }
      return Some((v1.value * 0x1_0000 + v2.value) % COUNT_LIMIT);
    }
    r := ReadDigits(p, base);
  }

  method SkipSpaces(s: string) returns (t: string)
    ensures t == Trim(s)
  {
    t := s;
    while t != "" && t[0] == ' '
      invariant Trim(t) == Trim(s)
      decreases |t|
    {
      t := t[1..];
    }
  }

  method Strcspn(s: string) returns (n: int)
    ensures n == WordLength(s)
  {
    n := 0;
    while n < |s| && s[n] != ' '
      invariant 0 <= n <= WordLength(s)
    {
      n := n + 1;
    }
  }

  /** The next word must fit `tmp`. */
  method ReadConversion(c: char, b0: string) returns (v: Option<Count>, b: string)
    requires IsScanned(c) && WordLength(Trim(b0)) < STR_DEFAULT_LEN
    ensures var t := Trim(b0); v == Atob(t[..WordLength(t)], Base(c)) && b == t[WordLength(t)..]
  {
    b := SkipSpaces(b0);
    var base := 10;
    if c == 'x' { base := 16; } else if c == 'o' { base := 8; } else if c == 'b' { base := 2; }
    var width := Strcspn(b);
    var tmp := b[..width];
    b := b[width..];
    v := ReadNumber(tmp, base);
  }

  /** `vsscanf`; `out` is what each argument pointer receives, in order. */
  method Vsscanf(buf: string, fmt: string) returns (out: seq<Option<Count>>, count: int)
    requires Scannable(fmt) && WordsFit(buf, fmt)
    ensures out == Scan(buf, fmt) && count == |out|
  {
    var s, b := fmt, buf;
    out, count := [], 0;
    while s != "" && b != ""
      invariant Scannable(s) && WordsFit(b, s) && count == |out|
      invariant out + Scan(b, s) == Scan(buf, fmt)
      decreases |s|
    {
      TrimScannable(s);
      ghost var sofar := out;
      s := SkipSpaces(s);
      if s[0] == '%' {
        s := s[1..];
        var v;
        v, b := ReadConversion(s[0], b);
        out := out + [v];
        count := count + 1;
        s := s[1..];
        Regrouped(sofar, [v], Scan(b, s));
      } else {
        b := SkipSpaces(b);
        if b == "" || s[0] != b[0] {
          assert out + [] == out;
          break;
        }
        s, b := s[1..], b[1..];
      }
    }
    assert out + [] == out;
  }

  /** Numbers printed with single spaces between them, and read back with the same format. */
  method PrintThenScan(cs: string, vs: seq<Count>) returns (got: seq<Option<Count>>, count: int)
    requires cs != "" && |vs| == |cs| && forall i :: 0 <= i < |cs| ==> Known(cs[i])
    ensures count == |got| == |cs| && forall i :: 0 <= i < |cs| ==> got[i] == ReadBack(cs[i], vs[i])
  {
    ScanUndoesPrint(cs, vs);
    PrintedFits(cs, vs);
    var text, len := Vsprintf(FormatOf(cs), vs);
    got, count := Vsscanf(text, FormatOf(cs));
  }
}
