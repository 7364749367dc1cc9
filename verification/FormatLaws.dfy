/** What printing and scanning mean, character by character: the text of a field, the order of
    literal text and fields in a format, and the words a format reads back. */
module FormatLaws {
  import opened Words
  import opened Stdio

  // ----- one field

  predicate AllAre(s: string, c: char) { forall i :: 0 <= i < |s| ==> s[i] == c }

  lemma {:induction false} RepeatAll(c: char, n: int)
    ensures AllAre(Repeat(c, n), c)
    decreases n
  {
    if n > 0 { RepeatAll(c, n - 1); }
  }

  /** Letters of `s` are lower-case when `small`, else upper-case. */
  predicate Cased(s: string, small: bool) {
    forall i :: 0 <= i < |s| ==> if small then !('A' <= s[i] <= 'Z') else !('a' <= s[i] <= 'z')
  }

  lemma {:induction false} DigitsCased(n: int, base: int, small: bool)
    requires 0 <= n && 2 <= base <= 36
    ensures Cased(Digits(n, base, small), small)
    decreases n
  {
    if n >= base {
      DivSmaller(n, base);
      DivBack(n, base);
      DigitsCased(n / base, base, small);
    }
  }

  lemma CasedJoin(a: string, b: string, small: bool)
    requires Cased(a, small) && Cased(b, small)
    ensures Cased(a + b, small)
  {
  }

  lemma CasedRepeat(c: char, n: int, small: bool)
    requires c == ' ' || c == '0'
    ensures Cased(Repeat(c, n), small)
  {
    RepeatAll(c, n);
  }

  /** The sign: a minus for a negative signed number, else what the flags ask for. */
  function SignShown(num: Count, fl: Flags): string {
    if fl.sign && num >= 0x8000_0000 then "-" else if fl.plus then "+" else if fl.space then " " else ""
  }

  function PrefixShown(base: int, fl: Flags): string {
    if !fl.special then "" else if base == 8 then "0" else if base != 16 then "" else if fl.small then "0x" else "0X"
  }

  lemma Shows(num: Count, base: int, fl: Flags)
    ensures SignText(num, fl) == SignShown(num, fl) && Prefix(base, fl) == PrefixShown(base, fl)
    ensures Cased(SignText(num, fl) + Prefix(base, fl), fl.small)
  {
  }

  /** The digits of a field, padded to the precision. */
  function Padded(num: Count, base: int, precision: int, fl: Flags): string
    requires 2 <= base <= 36
  {
    var digits := Digits(Magnitude(num, fl), base, fl.small);
    Repeat('0', precision - |digits|) + digits
  }

  lemma Grouped(s: string, p: string, z: string, zeros: string, digits: string)
    ensures s + p + z + zeros + digits == (s + p) + z + (zeros + digits)
  {
  }

  /** A field is spaces, sign and prefix, zeros, digits and spaces. */
  lemma Laid(num: Count, base: int, size: int, precision: int, fl: Flags)
    requires 2 <= base <= 36
    ensures var sp, d := SignShown(num, fl) + PrefixShown(base, fl), Padded(num, base, precision, fl);
            var fill := size - |sp + d|;
            Rendered(num, base, size, precision, fl) ==
            Front(fill, fl) + (sp + Repeat('0', More(fill, fl)) + d) + Back(fill, fl)
  {
    Shows(num, base, fl);
    var digits := Digits(Magnitude(num, fl), base, fl.small);
    var zeros := Repeat('0', precision - |digits|);
    Grouped(SignText(num, fl), Prefix(base, fl), Repeat('0', 0), zeros, digits);
    var fill := size - |Body(num, base, precision, fl, 0)|;
    Grouped(SignText(num, fl), Prefix(base, fl), Repeat('0', More(fill, fl)), zeros, digits);
  }

  /** `%x` writes lower-case letters and `%X` upper-case ones, in digits and prefix. */
  lemma LetterCase(num: Count, base: int, size: int, precision: int, fl: Flags)
    requires 2 <= base <= 36
    ensures Cased(Rendered(num, base, size, precision, fl), fl.small)
  {
    Laid(num, base, size, precision, fl);
    Shows(num, base, fl);
    var sp, d := SignShown(num, fl) + PrefixShown(base, fl), Padded(num, base, precision, fl);
    var fill, small := size - |sp + d|, fl.small;
    var digits := Digits(Magnitude(num, fl), base, small);
    DigitsCased(Magnitude(num, fl), base, small);
    CasedRepeat('0', precision - |digits|, small);
    CasedJoin(Repeat('0', precision - |digits|), digits, small);
    CasedRepeat('0', More(fill, fl), small);
    CasedJoin(sp, Repeat('0', More(fill, fl)), small);
    CasedJoin(sp + Repeat('0', More(fill, fl)), d, small);
    CasedRepeat(' ', fill, small);
    CasedJoin(Front(fill, fl), sp + Repeat('0', More(fill, fl)) + d, small);
    CasedJoin(Front(fill, fl) + (sp + Repeat('0', More(fill, fl)) + d), Back(fill, fl), small);
  }

  lemma Dropped(n: int, base: int)
    requires 2 <= base <= n
    ensures 0 < n / base < n
  {
    DivSmaller(n, base);
    DivBack(n, base);
  }

  lemma {:induction false} NoLeadingZero(n: int, base: int, small: bool)
    requires 0 <= n && 2 <= base <= 36
    ensures n > 0 ==> Digits(n, base, small)[0] != '0'
    ensures n == 0 ==> Digits(n, base, small) == "0"
    decreases n
  {
    if n >= base {
      Dropped(n, base);
      NoLeadingZero(n / base, base, small);
    }
  }

  lemma NoWidth(num: Count, base: int, precision: int, fl: Flags)
    requires 2 <= base <= 36
    ensures Rendered(num, base, -1, precision, fl) ==
            SignShown(num, fl) + PrefixShown(base, fl) + Padded(num, base, precision, fl)
  {
    var sp, d := SignShown(num, fl) + PrefixShown(base, fl), Padded(num, base, precision, fl);
    Laid(num, base, -1, precision, fl);
    var fill := -1 - |sp + d|;
    assert Front(fill, fl) == "" && Back(fill, fl) == "" && Repeat('0', More(fill, fl)) == "";
    assert "" + (sp + "" + d) + "" == sp + d;
  }

  lemma PaddedDigits(num: Count, base: int, precision: int, fl: Flags)
    requires 2 <= base <= 16
    ensures var digits := Padded(num, base, precision, fl);
            && AllDigits(digits, base) && Cased(digits, fl.small) && Scanned(digits, base) == Some(Magnitude(num, fl))
            && |digits| >= precision && digits != "" && (|digits| > precision && |digits| > 1 ==> digits[0] != '0')
  {
    var n := Magnitude(num, fl);
    var d := Digits(n, base, fl.small);
    var zeros := precision - |d|;
    DigitsAll(n, base, fl.small, zeros);
    DigitsValue(n, base, fl.small, zeros);
    DigitsCased(n, base, fl.small);
    CasedRepeat('0', zeros, fl.small);
    CasedJoin(Repeat('0', zeros), d, fl.small);
    NoLeadingZero(n, base, fl.small);
  }

  /** A field without a width, whole: sign, prefix and digits. The digits are worth the number,
      or its absolute value; there are at least `precision` of them, and more only when needed. */
  lemma FieldParts(num: Count, base: int, precision: int, fl: Flags) returns (digits: string)
    requires base == 8 || base == 10 || base == 16
    ensures Rendered(num, base, -1, precision, fl) == SignShown(num, fl) + PrefixShown(base, fl) + digits
    ensures AllDigits(digits, base) && Cased(digits, fl.small) && |digits| >= precision && digits != ""
    ensures |digits| > precision && |digits| > 1 ==> digits[0] != '0'
    ensures Scanned(digits, base) == Some(if fl.sign && num >= 0x8000_0000 then 0x1_0000_0000 - num else num)
  {
    digits := Padded(num, base, precision, fl);
    NoWidth(num, base, precision, fl);
    PaddedDigits(num, base, precision, fl);
  }

  lemma Sides(sp: string, d: string, a: string, z: string, b: string)
    ensures var t := a + (sp + z + d) + b;
            && |t| == |a| + |sp| + |z| + |d| + |b|
            && (a == "" && z == "" ==> t[..|sp + d|] == sp + d && t[|sp + d|..] == b)
            && (a == "" && b == "" ==> t[..|sp|] == sp && t[|sp|..|sp| + |z|] == z && t[|sp| + |z|..] == d)
            && (z == "" && b == "" ==> t[..|a|] == a && t[|a|..] == sp + d)
  {
    if z == "" { assert sp + z + d == sp + d; }
  }

  /** Text `t` is `u` filled up to `size`: with spaces behind it with the flag '-', with zeros behind
      its first `k` characters with the flag '0' alone, else with spaces in front. */
  predicate Filled(t: string, u: string, k: nat, size: int, fl: Flags) {
    && |t| == Max(size, |u|) && k <= |u|
    && if fl.left then t[..|u|] == u && AllAre(t[|u|..], ' ')
       else if fl.zeropad then
         t[..k] == u[..k] && AllAre(t[k..|t| - |u| + k], '0') && t[|t| - |u| + k..] == u[k..]
       else AllAre(t[..|t| - |u|], ' ') && t[|t| - |u|..] == u
  }

  lemma Placed(sp: string, d: string, size: int, fl: Flags)
    ensures var fill := size - |sp + d|;
            Filled(Front(fill, fl) + (sp + Repeat('0', More(fill, fl)) + d) + Back(fill, fl), sp + d, |sp|, size, fl)
  {
    var fill := size - |sp + d|;
    RepeatAll(' ', fill);
    RepeatAll('0', fill);
    Sides(sp, d, Front(fill, fl), Repeat('0', More(fill, fl)), Back(fill, fl));
    assert (sp + d)[..|sp|] == sp && (sp + d)[|sp|..] == d;
  }

  /** Where the padding of a field wider than its text goes: zeros go between prefix and digits. */
  lemma PaddingSide(num: Count, base: int, size: int, precision: int, fl: Flags)
    requires 2 <= base <= 36
    ensures Filled(Rendered(num, base, size, precision, fl), Rendered(num, base, -1, precision, fl),
                   |SignShown(num, fl)| + |PrefixShown(base, fl)|, size, fl)
  {
    var sp, d := SignShown(num, fl) + PrefixShown(base, fl), Padded(num, base, precision, fl);
    NoWidth(num, base, precision, fl);
    Laid(num, base, size, precision, fl);
    Placed(sp, d, size, fl);
  }

  // ----- formats

  predicate Plain(s: string) { forall i :: 0 <= i < |s| ==> s[i] != '%' }

  function InFront(a: string, t: Option<string>): Option<string> { if t.Some? then Some(a + t.value) else None }

  /** Text without '%' is printed as it stands. */
  lemma {:induction false} PrintLiteral(a: string, f: string, args: seq<Count>)
    requires Plain(a)
    ensures Print(a + f, args) == InFront(a, Print(f, args))
    decreases |a|
  {
    if a == "" {
      assert a + f == f;
      if Print(f, args).Some? { assert "" + Print(f, args).value == Print(f, args).value; }
    } else {
      assert (a + f)[1..] == a[1..] + f;
      PrintLiteral(a[1..], f, args);
      if Print(f, args).Some? {
        assert [a[0]] + (a[1..] + Print(f, args).value) == ([a[0]] + a[1..]) + Print(f, args).value;
        assert [a[0]] + a[1..] == a;
      }
    }
  }

  /** A piece of a format: literal text, or flags, a width, a precision (after the '.' there may
      be nothing) and a conversion letter. */
  datatype Piece =
    | Text(text: string)
    | Conv(pre: string, width: Option<nat>, precision: Option<Option<nat>>, c: char)

  predicate PieceOk(p: Piece) {
    match p
    case Text(a) => Plain(a)
    case Conv(pre, width, precision, c) =>
      (forall i :: 0 <= i < |pre| ==> IsFlag(pre[i])) && width != Some(0) && IsConversion(c)
  }

  function Decimal(n: nat): string { Digits(n, 10, false) }

  function WidthText(w: Option<nat>): string { match w case None => "" case Some(n) => Decimal(n) }

  function PrecisionText(p: Option<Option<nat>>): string {
    match p case None => "" case Some(None) => "." case Some(Some(n)) => "." + Decimal(n)
  }

  function PieceText(p: Piece): string {
    match p
    case Text(a) => a
    case Conv(pre, width, precision, c) => "%" + (pre + (WidthText(width) + (PrecisionText(precision) + [c])))
  }

  function WidthOf(p: Piece): int
    requires p.Conv?
  {
    if p.width.Some? then p.width.value else -1
  }

  function PrecisionOf(p: Piece): int
    requires p.Conv?
  {
    match p.precision case None => -1 case Some(None) => 0 case Some(Some(n)) => n
  }

  function BaseShown(c: char): int { if c == 'o' then 8 else if c == 'x' || c == 'X' then 16 else 10 }

  /** The flags asked for by the characters in front, and by the letter. */
  function FlagsShown(p: Piece): Flags
    requires p.Conv?
  {
    Flags('0' in p.pre, p.c == 'd' || p.c == 'i', '+' in p.pre, ' ' in p.pre, '-' in p.pre, '#' in p.pre, p.c == 'x')
  }

  function FieldOf(p: Piece, num: Count): string
    requires p.Conv?
  {
    Rendered(num, BaseShown(p.c), WidthOf(p), PrecisionOf(p), FlagsShown(p))
  }

  lemma FlagsAre(pre: string, fl: Flags)
    requires Sets(PLAIN, pre, fl)
    ensures fl == Flags('0' in pre, false, '+' in pre, ' ' in pre, '-' in pre, '#' in pre, false)
  {
    assert Flagged(fl, '0') <==> '0' in pre;
    assert Flagged(fl, '+') <==> '+' in pre;
    assert Flagged(fl, ' ') <==> ' ' in pre;
    assert Flagged(fl, '-') <==> '-' in pre;
    assert Flagged(fl, '#') <==> '#' in pre;
  }

  lemma WidthRead(w: Option<nat>, h: string)
    requires w != Some(0) && h != "" && !IsDigit(h[0]) && !IsFlag(h[0])
    ensures var g := WidthText(w) + h;
            && g != "" && !IsFlag(g[0]) && (IsDigit(g[0]) <==> w.Some?)
            && (w.Some? ==> NumberOf(g, 0) == (w.value, h)) && (w.None? ==> g == h)
  {
    if w.Some? {
      FirstDigit(w.value);
      NumberBack(w.value, h);
    }
  }

  lemma PrecisionRead(p: Option<Option<nat>>, g: string)
    requires g != "" && IsConversion(g[0])
    ensures var h := PrecisionText(p) + g;
            && h != "" && !IsDigit(h[0]) && !IsFlag(h[0]) && (h[0] == '.' <==> p.Some?) && (p.None? ==> h == g)
            && (p.Some? ==> h[1..] != "" && (IsDigit(h[1]) <==> p.value.Some?))
            && (p.Some? && p.value.None? ==> h[1..] == g)
            && (p.Some? && p.value.Some? ==> NumberOf(h[1..], 0) == (p.value.value, g))
  {
    if p.Some? && p.value.Some? {
      FirstDigit(p.value.value);
      NumberBack(p.value.value, g);
      assert (PrecisionText(p) + g)[1..] == Decimal(p.value.value) + g;
    }
  }

  /** Whatever flags, width and precision stand in front of a conversion, they are read back. */
  lemma ConvRead(p: Piece, f: string)
    requires p.Conv? && PieceOk(p)
    ensures var sp := SpecOf((PieceText(p) + f)[1..]);
            && sp.rest == [p.c] + f && Sets(PLAIN, p.pre, sp.fl)
            && sp.width == WidthOf(p) && sp.precision == PrecisionOf(p)
  {
    var g := [p.c] + f;
    var h := PrecisionText(p.precision) + g;
    var k := WidthText(p.width) + h;
    assert (PieceText(p) + f)[1..] == p.pre + k;
    PrecisionRead(p.precision, g);
    WidthRead(p.width, h);
    FlagsRead(p.pre, k, PLAIN);
    FlagsSet(p.pre, PLAIN);
  }

  lemma PrintField(fmt: string, args: seq<Count>, sp: Spec)
    requires fmt != "" && fmt[0] == '%' && SpecOf(fmt[1..]) == sp && sp.rest != "" && IsConversion(sp.rest[0])
    ensures |sp.rest| <= |fmt|
    ensures Print(fmt, args) == if args == [] then None else InFront(Field(args[0], sp), Print(sp.rest[1..], args[1..]))
  {
    SpecShorter(fmt[1..]);
  }

  lemma FlagsMatch(p: Piece, fl: Flags)
    requires p.Conv? && PieceOk(p) && Sets(PLAIN, p.pre, fl)
    ensures ConversionFlags(fl, p.c) == FlagsShown(p) && Base(p.c) == BaseShown(p.c)
  {
    FlagsAre(p.pre, fl);
  }

  /** A conversion is printed as its field, from the next argument. */
  lemma PrintConv(p: Piece, f: string, args: seq<Count>)
    requires p.Conv? && PieceOk(p)
    ensures Print(PieceText(p) + f, args) ==
            if args == [] then None else InFront(FieldOf(p, args[0]), Print(f, args[1..]))
  {
    ConvRead(p, f);
    var fmt := PieceText(p) + f;
    var sp := SpecOf(fmt[1..]);
    PrintField(fmt, args, sp);
    assert sp.rest[1..] == f;
    FlagsMatch(p, sp.fl);
  }

  function FormatText(ps: seq<Piece>): string { if ps == [] then "" else PieceText(ps[0]) + FormatText(ps[1..]) }

  /** What the pieces show, one after the other; none when the arguments run out. */
  function Shown(ps: seq<Piece>, args: seq<Count>): Option<string>
    decreases |ps|
  {
    if ps == [] then Some("")
    else if ps[0].Text? then InFront(ps[0].text, Shown(ps[1..], args))
    else if args == [] then None
    else InFront(FieldOf(ps[0], args[0]), Shown(ps[1..], args[1..]))
  }

  /** A whole format prints its literal text and its fields in order. */
  lemma {:induction false} PrintPieces(ps: seq<Piece>, args: seq<Count>)
    requires forall i :: 0 <= i < |ps| ==> PieceOk(ps[i])
    ensures Print(FormatText(ps), args) == Shown(ps, args)
    decreases |ps|
  {
    if ps != [] {
      var rest := FormatText(ps[1..]);
      if ps[0].Text? {
        PrintLiteral(ps[0].text, rest, args);
        PrintPieces(ps[1..], args);
      } else {
        PrintConv(ps[0], rest, args);
        if args != [] { PrintPieces(ps[1..], args[1..]); }
      }
    }
  }

  // ----- scanning

  /** Literal text that matches is skipped, on both sides. */
  lemma {:induction false} ScanLiteral(a: string, buf: string, f: string)
    requires Scannable(a + f) && Plain(a) && ' ' !in a
    ensures Scannable(f) && Scan(a + buf, a + f) == Scan(buf, f)
    decreases |a|
  {
    if a == "" {
      assert a + f == f && a + buf == buf;
    } else {
      assert (a + f)[1..] == a[1..] + f && (a + buf)[1..] == a[1..] + buf;
      assert Trim(a + f) == a + f && Trim(a + buf) == a + buf;
      ScanLiteral(a[1..], buf, f);
    }
  }

  /** The first literal character that does not match, or finds nothing left, ends the scan. */
  lemma ScanMismatch(buf: string, f: string)
    requires Scannable(f) && f != "" && f[0] != '%' && f[0] != ' ' && (buf == "" || buf[0] != ' ')
    requires buf == "" || buf[0] != f[0]
    ensures Scan(buf, f) == []
  {
  }

  const LOWER := "0123456789abcdef"
  const UPPER := "0123456789ABCDEF"

  /** The sixteen digits, in either case, and nothing else. */
  lemma DigitMeaning(c: char)
    ensures DigitOf(c).Some? <==> c in LOWER || c in UPPER
    ensures IsDigit(c) <==> c in LOWER[..10]
    ensures DigitOf(c).Some? ==>
              0 <= DigitOf(c).value < 16 && (c == LOWER[DigitOf(c).value] || c == UPPER[DigitOf(c).value])
  {
    assert IsDigit(c) ==> LOWER[..10][c as int - '0' as int] == c;
    if DigitOf(c).Some? {
      var d := DigitOf(c).value;
      assert c == LOWER[d] || c == UPPER[d];
    } else {
      assert forall i :: 0 <= i < 16 ==> DigitOf(LOWER[i]).Some? && DigitOf(UPPER[i]).Some?;
    }
  }

  /** A number is read if and only if every character is a digit of its base. */
  lemma {:induction false} ReadIfDigits(p: string, base: int)
    ensures Scanned(p, base).Some? <==> AllDigits(p, base)
    decreases |p|
  {
    if p != "" {
      var n := |p| - 1;
      ReadIfDigits(p[..n], base);
      assert p == p[..n] + [p[n]];
      assert AllDigits(p, base) <==> AllDigits(p[..n], base) && DigitOf(p[n]).Some? && DigitOf(p[n]).value < base;
    }
  }

  lemma DigitsWord(n: Count, base: int, small: bool)
    requires 2 <= base <= 16
    ensures IsWord(Digits(n, base, small)) && AllDigits(Digits(n, base, small), base)
    ensures Atob(Digits(n, base, small), base) == Some(n)
  {
    var d := Digits(n, base, small);
    DigitsAll(n, base, small, 0);
    PlainBack(n, base, small, 0);
    assert Repeat('0', 0) + d == d && DigitOf(' ') == None;
  }

  lemma ScanWord(c: char, t: string)
    requires IsScanned(c) && IsWord(t)
    ensures Scannable("%" + [c]) && Scan(t, "%" + [c]) == [Atob(t, Base(c))]
  {
    var f := "%" + [c];
    assert f[2..] == "" && f == "%" + [c] + "" && t + "" == t;
    ScanStep(t, "", c, "", f);
  }

  /** A conversion reads one word, in the base of its letter. */
  lemma ScanNumber(c: char, n: Count, small: bool)
    requires IsScanned(c)
    ensures var base := if c == 'b' then 2 else if c == 'o' then 8 else if c == 'x' then 16 else 10;
            Scannable("%" + [c]) && Scan(Digits(n, base, small), "%" + [c]) == [Some(n)]
  {
    var base := if c == 'b' then 2 else if c == 'o' then 8 else if c == 'x' then 16 else 10;
    DigitsWord(n, base, small);
    ScanWord(c, Digits(n, base, small));
  }

  lemma DotFound(x: string, y: string)
    requires AllDigits(x, 16) && AllDigits(y, 16)
    ensures var p := x + ("." + y); Find(p, '.') == |x| < |p| && p[..|x|] == x && p[|x| + 1..] == y && '.' !in y
  {
    var p := x + ("." + y);
    assert DigitOf('.') == None;
    assert p[|x|] == '.' && forall i :: 0 <= i < |x| ==> p[i] == x[i];
    assert Find(p, '.') == |x|;
    assert p[..|x|] == x;
    assert p[|x| + 1..] == y;
  }

  lemma Halves(x: string, y: string, a: Count, b: Count)
    requires AllDigits(x, 16) && AllDigits(y, 16) && 0 < |x| <= 19 && Atob(x, 16) == Some(a) && Atob(y, 16) == Some(b)
    ensures Unmarked(x + ("." + y), 16) == Some((a * 0x1_0000 + b) % 0x1_0000_0000) && !HexMark(x + ("." + y))
  {
    DotFound(x, y);
    assert DigitOf('x') == None && DigitOf('X') == None;
  }

  lemma DigitsRead16(p: string)
    requires AllDigits(p, 16)
    ensures Atob(p, 16).Some?
  {
    NoMarks(p, 16);
    ReadIfDigits(p, 16);
  }

  /** With digits on both sides of the '.', the first half may have up to 19 of them. */
  lemma HalvesExact(x: string, y: string)
    requires AllDigits(x, 16) && AllDigits(y, 16)
    ensures Unmarked(x + ("." + y), 16).Some? <==> |x| <= 19
  {
    DotFound(x, y);
    DigitsRead16(x);
    DigitsRead16(y);
  }

  lemma HalfLength(a: Count, small: bool)
    requires a < 0x1_0000
    ensures 0 < |Digits(a, 16, small)| <= 16
  {
    assert Pow2(8) == 256;
    assert Pow2(16) == 0x1_0000;
    DigitsLength(a, 16, small, 16);
  }

  /** Two hexadecimal halves joined by a '.', after a mark "0x" in any base: the first counts
      2^16 times. */
  lemma DottedHalves(a: Count, b: Count, small: bool, base: int)
    requires a < 0x1_0000 && b < 0x1_0000
    ensures var p := Digits(a, 16, small) + ("." + Digits(b, 16, small));
            Atob("0x" + p, base) == Some(a * 0x1_0000 + b) && Atob(p, 16) == Some(a * 0x1_0000 + b)
  {
    var p := Digits(a, 16, small) + ("." + Digits(b, 16, small));
    DigitsWord(a, 16, small);
    DigitsWord(b, 16, small);
    HalfLength(a, small);
    Halves(Digits(a, 16, small), Digits(b, 16, small), a, b);
    Small(a * 0x1_0000 + b);
    assert ("0x" + p)[2..] == p;
  }

  // ----- scanning undoes printing, for every format that can be scanned

  predicate KnownOnly(f: string) { forall i :: 0 <= i < |f| - 1 && f[i] == '%' ==> Known(f[i + 1]) }

  function Convs(f: string): nat { if f == "" then 0 else (if f[0] == '%' then 1 else 0) + Convs(f[1..]) }

  lemma OneConv(f: string)
    requires Scannable(f) && f != "" && f[0] == '%'
    ensures Convs(f) == 1 + Convs(f[2..])
  {
    assert f[1..][0] != '%' && f[1..][1..] == f[2..];
  }

  /** What comes back for each conversion: the value, or nothing for a number printed with a minus sign. */
  function Returned(f: string, vs: seq<Count>): seq<Option<Count>>
    requires Scannable(f) && Convs(f) == |vs|
    decreases |f|
  {
    if f == "" then []
    else if f[0] == '%' then
      OneConv(f);
      [if f[1] == 'd' && vs[0] >= 0x8000_0000 then None else Some(vs[0])] + Returned(f[2..], vs[1..])
    else Returned(f[1..], vs)
  }

  lemma SpacesTrimmed(buf: string, f: string)
    requires Scannable(" " + f) && Scannable(f) && buf != "" && f != ""
    ensures Scan(" " + buf, " " + f) == Scan(buf, f)
  {
    assert (" " + buf)[1..] == buf && (" " + f)[1..] == f;
    assert Trim(" " + buf) == Trim(buf) && Trim(" " + f) == Trim(f);
  }

  /** For any format of literal text and the conversions %u %x %o %d, each of these followed by
      a space or the end: what is printed with it is read back by it. */
  lemma {:induction false} ScanUndoesFormat(f: string, vs: seq<Count>)
    requires Scannable(f) && KnownOnly(f) && Convs(f) == |vs|
    ensures Print(f, vs).Some? && Scan(Print(f, vs).value, f) == Returned(f, vs)
    ensures if f == "" then Print(f, vs).value == "" else Print(f, vs).value != ""
    ensures f != "" && f[0] == ' ' ==> Print(f, vs).value[0] == ' '
    decreases |f|
  {
    if f == "" {
    } else if f[0] == '%' {
      OneConv(f);
      ScanUndoesFormat(f[2..], vs[1..]);
      var t, rest := Token(f[1], vs[0]), Print(f[2..], vs[1..]).value;
      assert f == "%" + [f[1]] + f[2..];
      PrintStep(f[1], vs[0], f[2..], vs, f);
      TokenShape(f[1], vs[0]);
      TokenBack(f[1], vs[0]);
      ScanStep(t, rest, f[1], f[2..], f);
    } else {
      ScanUndoesFormat(f[1..], vs);
      var rest := Print(f[1..], vs).value;
      assert f == [f[0]] + f[1..];
      if f[0] == ' ' {
        SpacesTrimmed(rest, f[1..]);
      } else {
        ScanLiteral([f[0]], rest, f[1..]);
      }
    }
  }
}
