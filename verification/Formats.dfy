/** What the conversions of a format mean: bases, signs, padding and field sizes, apart from the parser. */
module Formats {
  import opened CStrings
  import opened Printf
  import opened Words
  import opened Wrappers

  // ---------- What a conversion should put out ----------

  /** The number written in the base with the digits 0 to 9 and a to f, with at least `least` of them and no further
      zero in front. */
  predicate IsNumeral(d: string, base: nat, v: nat, least: int) {
    && d != "" && |d| >= least && ValueOf(d, base) == v
    && (forall c <- d :: '0' <= c <= '9' || (base == 16 && 'a' <= c <= 'f'))
    && (|d| > 1 && |d| > least ==> d[0] != '0')
  }

  /** The text at the left of the field or at its right, and the rest of the field filled up. */
  predicate IsField(out: string, text: string, width: int, left: bool, fill: char) {
    && |out| == (if width > |text| then width else |text|)
    && (if left then out[..|text|] == text && forall k | |text| <= k < |out| :: out[k] == ' '
        else out[|out| - |text|..] == text && forall k | 0 <= k < |out| - |text| :: out[k] == fill)
  }

  lemma AlignedIsField(text: string, width: int, left: bool, zero: bool)
    ensures IsField(Aligned(text, width, left, zero), text, width, left, if zero then '0' else ' ')
  {
  }

  lemma {:induction false} DigitsOf(v: nat, base: nat)
    requires base == 10 || base == 16
    ensures var d := Digits(v, base);
            && (forall c <- d :: '0' <= c <= '9' || (base == 16 && 'a' <= c <= 'f'))
            && (d[0] == '0' <==> v == 0) && (v == 0 ==> |d| == 1)
    decreases v
  {
    if v >= base {
      DigitsStep(v, base);
      DigitIs(v % base, base);
      hide Digits, DigitChar;
      DigitsOf(v / base, base);
    } else {
      DigitIs(v, base);
    }
  }

  lemma DigitsStep(v: nat, base: nat)
    requires v >= base && 2 <= base <= 16
    ensures 0 < v / base < v && 0 <= v % base < base
    ensures Digits(v, base) == Digits(v / base, base) + [DigitChar(v % base)]
  {
    DivSmaller(v, base);
    DivAtLeast(v, base);
    hide DigitChar;
  }

  lemma DigitIs(d: nat, base: nat)
    requires d < base && (base == 10 || base == 16)
    ensures var c := DigitChar(d); ('0' <= c <= '9' || (base == 16 && 'a' <= c <= 'f')) && (c == '0' <==> d == 0)
  {
  }

  lemma DivAtLeast(v: nat, base: nat)
    requires v >= base > 0
    ensures v / base > 0
  {
  }

  lemma NumberTextIsNumeral(sign: string, v: nat, base: nat, precision: int)
    requires base == 10 || base == 16
    ensures var t := NumberText(sign, v, base, precision);
            |t| >= |sign| && t[..|sign|] == sign && IsNumeral(t[|sign|..], base, v, precision)
  {
    var d, k := Digits(v, base), precision - |Digits(v, base)|;
    NumberParsesBack(sign, v, base, precision);
    DigitsOf(v, base);
    assert NumberText(sign, v, base, precision)[|sign|..] == Repeat('0', k) + d;
    hide Digits, NumberText;
    ZerosInFront(d, base, k);
  }

  lemma ZerosInFront(d: string, base: nat, k: int)
    requires d != "" && forall c <- d :: '0' <= c <= '9' || (base == 16 && 'a' <= c <= 'f')
    ensures var t := Repeat('0', k) + d;
            && (k <= 0 ==> t == d) && |t| == |d| + (if k > 0 then k else 0)
            && forall c <- t :: '0' <= c <= '9' || (base == 16 && 'a' <= c <= 'f')
  {
  }

  // ---------- Specifications ----------

  /** A width or precision: none, digits, or taken from the arguments. */
  datatype Size = Absent | Given(n: nat) | Asked(w: word) {
    function Text(): string {
      match this
      case Absent => ""
      case Given(n) => Digits(n, 10)
      case Asked(_) => "*"
    }

    function Args(): seq<Arg> {
      match this
      case Asked(w) => [Word(w)]
      case _ => []
    }

    /** A word from the arguments counts as signed. */
    function Value(none: int): int {
      match this
      case Absent => none
      case Given(n) => n
      case Asked(w) => if w < 0x8000_0000 then w else w - 0x1_0000_0000
    }

    predicate Fits() {
      Given? ==> n < 0x8000_0000
    }
  }

  /** A conversion specification as it is written in a format; a width does not begin with a zero. */
  datatype Spec = Spec(flags: string, width: Size, precision: Size, conv: char) {
    predicate Ok() {
      && (forall c <- flags :: c == '-' || c == '0')
      && width.Fits() && precision.Fits() && (width.Given? ==> width.n > 0) && conv in "csduxp"
    }

    function PrecisionText(): string {
      if precision.Absent? then "" else "." + precision.Text()
    }

    function Written(): string {
      "%" + flags + width.Text() + PrecisionText() + [conv]
    }

    function Args(): seq<Arg> {
      width.Args() + precision.Args()
    }

    predicate Left() {
      '-' in flags
    }

    /** What fills the field on the left: zeros only if asked for and not put on the right. */
    function Fill(): char {
      if '0' in flags && '-' !in flags then '0' else ' '
    }
  }

  lemma {:induction false} FlagsEnd(flags: string, tail: string)
    requires forall c <- flags :: c == '-' || c == '0'
    requires tail != "" && tail[0] != '-' && tail[0] != '0'
    ensures FlagCount(flags + tail) == |flags|
    decreases |flags|
  {
    if flags == "" {
      assert flags + tail == tail;
    } else {
      assert (flags + tail)[1..] == flags[1..] + tail;
      assert flags[0] in flags && forall c <- flags[1..] :: c in flags;
      FlagsEnd(flags[1..], tail);
    }
  }

  lemma {:induction false} DigitsEnd(d: string, tail: string)
    requires forall c <- d :: IsDigit(c)
    requires tail == "" || !IsDigit(tail[0])
    ensures DigitCount(d + tail) == |d|
    decreases |d|
  {
    if d == "" {
      assert d + tail == tail;
    } else {
      assert (d + tail)[1..] == d[1..] + tail;
      assert d[0] in d && forall c <- d[1..] :: c in d;
      DigitsEnd(d[1..], tail);
    }
  }

  /** A field size that no digit follows is read as written. */
  lemma SizeIsRead(size: Size, tail: string, args: seq<Arg>)
    requires size.Fits() && tail != "" && !IsDigit(tail[0]) && tail[0] != '*'
    ensures Number(size.Text() + tail, size.Args() + args) == Some(Field(size.Value(0), |size.Text()|, args))
  {
    match size
    case Asked(w) =>
      assert (size.Args() + args)[1..] == args;
    case Given(n) =>
      var d := Digits(n, 10);
      DigitsOf(n, 10);
      DigitsParseBack(n, 10);
      hide Digits;
      DigitsEnd(d, tail);
      assert (d + tail)[..|d|] == d && d[0] in d;
      assert size.Args() + args == args;
    case Absent =>
      DigitsEnd("", tail);
      assert "" + tail == tail && size.Args() + args == args;
  }

  lemma SizeStarts(size: Size, tail: string)
    requires size.Given? ==> size.n > 0
    requires tail != "" && tail[0] != '-' && tail[0] != '0'
    ensures var t := size.Text() + tail; t != "" && t[0] != '-' && t[0] != '0'
  {
    if size.Given? {
      DigitsOf(size.n, 10);
      assert size.Text()[0] in size.Text();
    }
    hide Digits;
  }

  lemma PrecisionIsRead(spec: Spec, tail: string, args: seq<Arg>)
    requires spec.Ok() && tail != "" && tail[0] in "csduxp"
    ensures Precision(spec.PrecisionText() + tail, spec.precision.Args() + args)
            == Some(Field(spec.precision.Value(-1), |spec.PrecisionText()|, args))
    ensures var t := spec.PrecisionText() + tail; t[0] == '.' || t[0] in "csduxp"
  {
    hide Digits;
    if spec.precision.Absent? {
      assert spec.PrecisionText() + tail == tail && spec.precision.Args() + args == args;
    } else {
      assert (spec.PrecisionText() + tail)[1..] == spec.precision.Text() + tail;
      SizeIsRead(spec.precision, tail, args);
    }
  }

  /** The parser reads a specification as it was written. */
  lemma HeadIsRead(spec: Spec, rest: string, args: seq<Arg>)
    requires spec.Ok()
    ensures ParseHead((spec.Written() + rest)[1..], spec.Args() + args)
            == Some(Head(spec.Left(), spec.Fill() == '0', spec.width.Value(0), spec.precision.Value(-1),
                         |spec.Written()| - 2, args))
    ensures (spec.Written() + rest)[1..][|spec.Written()| - 2] == spec.conv
    ensures (spec.Written() + rest)[0] == '%'
  {
    hide Digits, Number, Precision, FlagCount, ParseHead, Spec.Written, Spec.Args, Spec.PrecisionText, Size.Text, Size.Args,
      Size.Value;
    var tail := [spec.conv] + rest;
    var fromPrecision := spec.PrecisionText() + tail;
    var fromWidth := spec.width.Text() + fromPrecision;
    var s := spec.flags + fromWidth;
    Apart(spec, rest, args);
    PrecisionIsRead(spec, tail, args);
    SizeIsRead(spec.width, fromPrecision, spec.precision.Args() + args);
    SizeStarts(spec.width, fromPrecision);
    FlagsEnd(spec.flags, fromWidth);
    HeadFrom(s, spec.Args() + args, |spec.flags|, Field(spec.width.Value(0), |spec.width.Text()|, spec.precision.Args() + args),
             Field(spec.precision.Value(-1), |spec.PrecisionText()|, args));
  }

  lemma Apart(spec: Spec, rest: string, args: seq<Arg>)
    ensures var fromPrecision := spec.PrecisionText() + ([spec.conv] + rest);
            var fromWidth := spec.width.Text() + fromPrecision;
            var s := (spec.Written() + rest)[1..];
            && (spec.Written() + rest)[0] == '%' && s == spec.flags + fromWidth
            && s[..|spec.flags|] == spec.flags && s[|spec.flags|..] == fromWidth
            && s[|spec.flags| + |spec.width.Text()|..] == fromPrecision
            && |spec.Written()| - 2 == |spec.flags| + |spec.width.Text()| + |spec.PrecisionText()| < |s|
            && s[|spec.Written()| - 2] == spec.conv
    ensures spec.Args() + args == spec.width.Args() + (spec.precision.Args() + args)
  {
    hide Size.Text, Spec.PrecisionText, Size.Args;
    var a, b, c, d := spec.flags, spec.width.Text(), spec.PrecisionText(), [spec.conv] + rest;
    assert spec.Written() + rest == "%" + (a + (b + (c + d)));
    assert (a + (b + (c + d)))[|a| + |b|..] == c + d;
    assert (a + (b + (c + d)))[|a| + |b| + |c|] == d[0];
  }

  lemma HeadFrom(s: string, args: seq<Arg>, k: nat, w: Field, p: Field)
    requires k <= |s| && FlagCount(s) == k && Number(s[k..], args) == Some(w)
    requires k + w.used + p.used < |s| && Precision(s[k + w.used..], w.args) == Some(p)
    ensures ParseHead(s, args) == Some(Head('-' in s[..k], '0' in s[..k] && '-' !in s[..k], w.value, p.value,
                                            k + w.used + p.used, p.args))
  {
    hide Number, Precision, FlagCount;
  }

  /** What a format puts out from a specification on. */
  lemma SpecThenRest(spec: Spec, rest: string, a: Arg, more: seq<Arg>)
    requires spec.Ok()
    requires var c := Converted(spec.conv, spec.precision.Value(-1), [a] + more);
             c.Some? && |c.value| < INT_LIMIT && |c.value| <= INT_LIMIT + spec.width.Value(0)
    requires Render(rest, more).Some?
    ensures var text := Converted(spec.conv, spec.precision.Value(-1), [a] + more).value;
            var all := Render(spec.Written() + rest, spec.Args() + [a] + more);
            && all.Some?
            && all.value == Plain(Aligned(text, spec.width.Value(0), spec.Left(), spec.Fill() == '0')) + Render(rest, more).value
  {
    var fmt, args := spec.Written() + rest, spec.Args() + [a] + more;
    assert args == spec.Args() + ([a] + more) && ([a] + more)[1..] == more;
    HeadIsRead(spec, rest, [a] + more);
    assert fmt[1 + (|spec.Written()| - 1)..] == rest;
    hide ParseHead, Converted, Aligned, Spec.Written, Spec.Args, Size.Value, Spec.Ok;
    RenderAt(fmt, args);
  }

  lemma RenderAt(fmt: string, args: seq<Arg>)
    requires fmt != "" && fmt[0] == '%' && Parse(fmt[1..], args).Some?
    ensures var d := Parse(fmt[1..], args).value;
            var rest := Render(fmt[1 + d.used..], d.args);
            rest.Some? ==> Render(fmt, args) == Some(Plain(d.text) + rest.value)
  {
    hide Parse;
  }

  // ---------- The conversions ----------

  /** From a format on, first `out` and then what the rest puts out. */
  ghost predicate PutsOut(spec: Spec, rest: string, a: Arg, more: seq<Arg>, out: string) {
    var all, after := Render(spec.Written() + rest, spec.Args() + [a] + more), Render(rest, more);
    after.Some? ==> all.Some? && all.value == Plain(out) + after.value
  }

  /** The field that `%u`, `%x` or `%d` puts out holds the argument: in base 10, in base 16, or in base 10 behind a
      minus sign exactly for a negative one. */
  lemma NumberIsPrinted(spec: Spec, rest: string, w: word, more: seq<Arg>) returns (out: string, sign: string, d: string)
    requires spec.Ok() && spec.conv in "dux" && spec.width.Value(0) >= -0x4000_0000
    requires spec.precision.Value(-1) + (if spec.conv == 'd' && w >= 0x8000_0000 then 1 else 0) < 32
    ensures PutsOut(spec, rest, Word(w), more, out)
    ensures IsField(out, sign + d, spec.width.Value(0), spec.Left(), spec.Fill())
    ensures sign == if spec.conv == 'd' && w >= 0x8000_0000 then "-" else ""
    ensures IsNumeral(d, if spec.conv == 'x' then 16 else 10,
                      if spec.conv == 'd' && w >= 0x8000_0000 then 0x1_0000_0000 - w else w, spec.precision.Value(-1))
  {
    hide NumberText, Digits, IsNumeral, Converted, IsField, PutsOut, Spec.Left, Spec.Fill, Size.Value;
    var precision := spec.precision.Value(-1);
    sign := if spec.conv == 'd' && w >= 0x8000_0000 then "-" else "";
    var v := if spec.conv == 'd' && w >= 0x8000_0000 then 0x1_0000_0000 - w else w;
    var base := if spec.conv == 'x' then 16 else 10;
    var text := NumberText(sign, v, base, precision);
    NumberTextIsNumeral(sign, v, base, precision);
    NumberTextLength(sign, v, base, precision);
    d := text[|sign|..];
    assert text == sign + d;
    NumberIsConverted(spec.conv, precision, w, more);
    out := FieldIsPrinted(spec, rest, Word(w), more, text);
  }

  lemma NumberIsConverted(conv: char, precision: int, w: word, more: seq<Arg>)
    requires conv in "dux" && precision + (if conv == 'd' && w >= 0x8000_0000 then 1 else 0) < 32
    ensures var sign := if conv == 'd' && w >= 0x8000_0000 then "-" else "";
            var v := if conv == 'd' && w >= 0x8000_0000 then 0x1_0000_0000 - w else w;
            Converted(conv, precision, [Word(w)] + more)
            == Some(NumberText(sign, v, if conv == 'x' then 16 else 10, precision))
  {
    hide NumberText, Digits;
  }

  lemma NumberTextLength(sign: string, v: nat, base: nat, precision: int)
    requires (base == 10 || base == 16) && v < WORD_LIMIT && |sign| <= 1 && precision < 32
    ensures |NumberText(sign, v, base, precision)| <= 42
  {
    WordDigits(v, base);
    hide Digits;
  }

  lemma FieldIsPrinted(spec: Spec, rest: string, a: Arg, more: seq<Arg>, text: string) returns (out: string)
    requires spec.Ok() && Converted(spec.conv, spec.precision.Value(-1), [a] + more) == Some(text)
    requires |text| < INT_LIMIT && |text| <= INT_LIMIT + spec.width.Value(0)
    ensures PutsOut(spec, rest, a, more, out)
    ensures IsField(out, text, spec.width.Value(0), spec.Left(), spec.Fill())
  {
    out := Aligned(text, spec.width.Value(0), spec.Left(), spec.Fill() == '0');
    AlignedIsField(text, spec.width.Value(0), spec.Left(), spec.Fill() == '0');
    hide Converted, Aligned, Render, Spec.Written, Spec.Args;
    if Render(rest, more).Some? {
      SpecThenRest(spec, rest, a, more);
    }
  }

  /** `%p` puts out `0x` and the word in base 16, `%c` the word's low byte. */
  lemma WordIsPrinted(spec: Spec, rest: string, w: word, more: seq<Arg>) returns (out: string, text: string)
    requires spec.Ok() && spec.conv in "pc" && spec.width.Value(0) >= -0x4000_0000
    ensures PutsOut(spec, rest, Word(w), more, out)
    ensures IsField(out, text, spec.width.Value(0), spec.Left(), spec.Fill())
    ensures spec.conv == 'p' ==> |text| > 2 && text[..2] == "0x" && IsNumeral(text[2..], 16, w, 0)
    ensures spec.conv == 'c' ==> text == [(w % 256) as char]
  {
    WordDigits(w, 16);
    DigitsOf(w, 16);
    DigitsParseBack(w, 16);
    hide Digits, ValueOf;
    text := if spec.conv == 'p' then "0x" + Digits(w, 16) else [(w % 256) as char];
    assert spec.conv == 'p' ==> text[2..] == Digits(w, 16);
    assert Converted(spec.conv, spec.precision.Value(-1), [Word(w)] + more) == Some(text);
    out := FieldIsPrinted(spec, rest, Word(w), more, text);
  }

  /** `%s` puts out the text, cut to the precision if there is one. */
  lemma TextIsPrinted(spec: Spec, rest: string, s: CText, more: seq<Arg>) returns (out: string, text: string)
    requires spec.Ok() && spec.conv == 's' && |s| < 0x4000_0000 && spec.width.Value(0) >= -0x4000_0000
    ensures PutsOut(spec, rest, Str(s), more, out)
    ensures IsField(out, text, spec.width.Value(0), spec.Left(), spec.Fill())
    ensures var p := spec.precision.Value(-1);
            text == if 0 <= p < |s| then s[..p] else s
  {
    var p := spec.precision.Value(-1);
    text := if 0 <= p < |s| then s[..p] else s;
    assert s[..|s|] == s;
    assert Converted('s', p, [Str(s)] + more) == Some(text);
    out := FieldIsPrinted(spec, rest, Str(s), more, text);
  }

  /** A character outside a specification, and `%%`, put out themselves. */
  lemma CharacterIsPrinted(c: char, rest: string, args: seq<Arg>)
    requires Render(rest, args).Some?
    ensures c != '%' ==> Render([c] + rest, args) == Some([Item(c, true)] + Render(rest, args).value)
    ensures Render("%%" + rest, args) == Some([Item('%', false)] + Render(rest, args).value)
  {
    assert ([c] + rest)[1..] == rest;
    PercentIsRead(rest, args);
    assert ("%%" + rest)[1..] == "%" + rest && ("%%" + rest)[2..] == rest;
    hide Parse;
    assert Plain("%") == [Item('%', false)];
  }

  lemma PercentIsRead(rest: string, args: seq<Arg>)
    ensures Parse("%" + rest, args) == Some(Directive("%", 1, args))
  {
    var s := "%" + rest;
    assert FlagCount(s) == 0 && s[0..] == s && DigitCount(s) == 0 && s[..0] == "";
    assert Number(s, args) == Some(Field(0, 0, args));
    assert Precision(s, args) == Some(Field(-1, 0, args));
  }

  /** A negative number's sign is the first character of its field exactly when nothing fills the field on the left:
      zeros are put before the sign. */
  lemma SignComesFirstIff(out: string, d: string, width: int, left: bool, fill: char)
    requires IsField(out, "-" + d, width, left, fill) && fill != '-'
    ensures out[0] == '-' <==> left || width <= |d| + 1
  {
    var text := "-" + d;
    assert left || width <= |text| ==> out[..|text|] == text;
    assert out[..|text|] == text ==> out[0] == text[0];
  }
}
