/** The kernel's formatter against a pure renderer. */
module Printf {
  import opened CStrings
  import opened Division
  import opened Words
  import opened Wrappers

  const INT_LIMIT: nat := 0x8000_0000
  const TMP_SIZE: nat := 32

  // ---------- Digits ----------

  function DigitChar(d: nat): char
    requires d < 16
  {
    "0123456789abcdef"[d]
  }

  function DigitValue(c: char): nat {
    if '0' <= c <= '9' then c as int - '0' as int
    else if 'a' <= c <= 'f' then c as int - 'a' as int + 10
    else 0
  }

  lemma DivSmaller(v: nat, base: nat)
    requires 2 <= base
    ensures 0 <= v % base < base && v == v / base * base + v % base && 0 <= v / base
    ensures v > 0 ==> v / base < v
  {
    var q := v / base;
    assert v == q * base + v % base;
    if q > 0 {
      assert q * base >= q * 2;
    }
  }

  /** `v` in a base, without leading zeros. */
  function Digits(v: nat, base: nat): (s: string)
    requires 2 <= base <= 16
    ensures |s| > 0 && NUL !in s
  {
    DivSmaller(v, base);
    if v < base then [DigitChar(v)] else Digits(v / base, base) + [DigitChar(v % base)]
  }

  function ValueOf(s: string, base: nat): nat {
    if s == [] then 0 else ValueOf(s[..|s| - 1], base) * base + DigitValue(s[|s| - 1])
  }

  function Repeat(c: char, n: int): (s: string)
    ensures |s| == if n < 0 then 0 else n
  {
    seq(if n < 0 then 0 else n, _ => c)
  }

  lemma DigitParsesBack(d: nat)
    requires d < 16
    ensures DigitChar(d) == "0123456789abcdef"[d] && DigitValue("0123456789abcdef"[d]) == d
    ensures DigitValue(DigitChar(d)) == d
  {
  }

  lemma LastDigit(s: string, c: char, base: nat)
    ensures ValueOf(s + [c], base) == ValueOf(s, base) * base + DigitValue(c)
  {
    assert (s + [c])[..|s|] == s;
  }

  lemma {:induction false} DigitsParseBack(v: nat, base: nat)
    requires 2 <= base <= 16
    ensures ValueOf(Digits(v, base), base) == v
  {
    DivSmaller(v, base);
    if v >= base {
      DigitsParseBack(v / base, base);
      DigitParsesBack(v % base);
      LastDigit(Digits(v / base, base), DigitChar(v % base), base);
    } else {
      DigitParsesBack(v);
      assert [DigitChar(v)][..0] == [];
    }
  }

  /** Zero extension leaves the value alone. */
  lemma {:induction false} ZerosParseBack(k: int, s: string, base: nat)
    ensures ValueOf(Repeat('0', k) + s, base) == ValueOf(s, base)
    decreases |s|, k
  {
    var t := Repeat('0', k) + s;
    if s != [] {
      assert t[..|t| - 1] == Repeat('0', k) + s[..|s| - 1];
      ZerosParseBack(k, s[..|s| - 1], base);
    } else if k > 0 {
      assert t[..|t| - 1] == Repeat('0', k - 1) + s;
      ZerosParseBack(k - 1, s, base);
    }
  }

  function Power(base: nat, k: nat): nat {
    if k == 0 then 1 else base * Power(base, k - 1)
  }

  lemma DivBelow(v: nat, base: nat, m: nat)
    requires base > 0 && v < base * m
    ensures v / base < m
  {
    var q := v / base;
    assert v == q * base + v % base;
    assert q >= m ==> q * base >= m * base;
  }

  lemma {:induction false} DigitsLength(v: nat, base: nat, k: nat)
    requires 2 <= base <= 16 && k > 0 && v < Power(base, k)
    ensures |Digits(v, base)| <= k
    decreases k
  {
    if v >= base && k > 1 {
      DivBelow(v, base, Power(base, k - 1));
      DigitsLength(v / base, base, k - 1);
    }
  }

  lemma WordDigits(v: word, base: nat)
    requires base == 10 || base == 16
    ensures |Digits(v, base)| <= 10
  {
    assert Power(10, 5) == 100000 && Power(16, 4) == 0x1_0000;
    if base == 10 {
      assert Power(10, 10) == 100000 * Power(10, 5);
      DigitsLength(v, 10, 10);
    } else {
      assert Power(16, 8) == 0x1_0000 * Power(16, 4);
      DigitsLength(v, 16, 8);
    }
  }

  // ---------- The renderer ----------

  /** What `%u`, `%x` and, behind its sign, `%d` put out parses back to the argument, whatever the precision. */
  lemma NumberParsesBack(sign: string, v: nat, base: nat, precision: int)
    requires 2 <= base <= 16
    ensures NumberText(sign, v, base, precision)[..|sign|] == sign
    ensures ValueOf(NumberText(sign, v, base, precision)[|sign|..], base) == v
  {
    var k := precision - |Digits(v, base)|;
    assert NumberText(sign, v, base, precision)[|sign|..] == Repeat('0', k) + Digits(v, base);
    ZerosParseBack(k, Digits(v, base), base);
    DigitsParseBack(v, base);
  }

  /** The text of a C string. */
  type CText = s: string | NUL !in s witness ""

  /** A variadic argument: a machine word or a pointer to text. */
  datatype Arg = Word(w: word) | Str(s: CText) | Null

  /** One output character; literal ones come straight from the format. */
  datatype Item = Item(c: char, literal: bool)

  function Signed(w: word): int {
    if w < INT_LIMIT then w else w - WORD_LIMIT
  }

  function At(s: string, k: nat): char {
    if k < |s| then s[k] else NUL
  }

  predicate IsDigit(c: char) {
    '0' <= c <= '9'
  }

  function FlagCount(s: string): (n: nat)
    ensures n <= |s|
  {
    if s != [] && (s[0] == '-' || s[0] == '0') then 1 + FlagCount(s[1..]) else 0
  }

  function DigitCount(s: string): (n: nat)
    ensures n <= |s|
  {
    if s != [] && IsDigit(s[0]) then 1 + DigitCount(s[1..]) else 0
  }

  /** A number in the format or, for `*`, in the arguments; `None` where C leaves the result undefined. */
  datatype Field = Field(value: int, used: nat, args: seq<Arg>)

  function Number(s: string, args: seq<Arg>): (f: Option<Field>)
    ensures f.Some? ==> f.value.used <= |s|
  {
    if s != [] && s[0] == '*' then
      if args != [] && args[0].Word? then Some(Field(Signed(args[0].w), 1, args[1..])) else None
    else
      var n := ValueOf(s[..DigitCount(s)], 10);
      if n < INT_LIMIT then Some(Field(n, DigitCount(s), args)) else None
  }

  function Precision(s: string, args: seq<Arg>): (f: Option<Field>)
    ensures f.Some? ==> f.value.used <= |s|
  {
    if s == [] || s[0] != '.' then Some(Field(-1, 0, args))
    else
      var f := Number(s[1..], args);
      if f.None? then None else Some(Field(f.value.value, f.value.used + 1, f.value.args))
  }

  /** A number's digits, extended with zeros to the precision, after its sign. */
  function NumberText(sign: string, v: nat, base: nat, precision: int): string
    requires 2 <= base <= 16
  {
    sign + Repeat('0', precision - |Digits(v, base)|) + Digits(v, base)
  }

  /** The text a conversion puts out before padding, or `None` outside the supported formats: a wrong argument,
      `%f`, or digits that do not fit the scratch buffer. */
  function Converted(conv: char, precision: int, args: seq<Arg>): Option<string> {
    if conv !in "csduxp" then (if conv == 'f' || conv == NUL then None else Some(""))
    else if args == [] then None
    else match args[0]
      case Word(w) =>
        if conv == 's' then None
        else if conv == 'c' then Some([(w % 256) as char])
        else if conv == 'p' then Some("0x" + Digits(w, 16))
        else
          var sign := if conv == 'd' && Signed(w) < 0 then "-" else "";
          var v := if conv == 'd' && Signed(w) < 0 then -Signed(w) else w;
          if |sign| + precision >= TMP_SIZE then None
          else Some(NumberText(sign, v, if conv == 'x' then 16 else 10, precision))
      case Str(s) => if conv == 's' then Some(if precision >= 0 then Take(s, precision) else s) else None
      case Null => if conv == 's' then Some(if precision >= 0 then Take("(null)", precision) else "(null)") else None
  }

  function Aligned(text: string, width: int, left: bool, zero: bool): string {
    if left then text + Repeat(' ', width - |text|)
    else Repeat(if zero then '0' else ' ', width - |text|) + text
  }

  /** Flags, width and precision; the conversion character is at `at`. */
  datatype Head = Head(left: bool, zero: bool, width: int, precision: int, at: nat, args: seq<Arg>)

  function ParseHead(s: string, args: seq<Arg>): (h: Option<Head>)
    ensures h.Some? ==> h.value.at < |s|
  {
    var k := FlagCount(s);
    var left := '-' in s[..k];
    var width := Number(s[k..], args);
    if width.None? then None
    else
      var w := width.value;
      var precision := Precision(s[k + w.used..], w.args);
      if precision.None? || k + w.used + precision.value.used >= |s| then None
      else
        var p := precision.value;
        Some(Head(left, '0' in s[..k] && !left, w.value, p.value, k + w.used + p.used, p.args))
  }

  /** What a conversion puts out and the arguments it leaves. */
  datatype Output = Output(text: string, args: seq<Arg>)

  function Convert(h: Head, conv: char): Option<Output> {
    var text := Converted(conv, h.precision, h.args);
    if text.None? || |text.value| >= INT_LIMIT || INT_LIMIT + h.width < |text.value| then None
    else if conv in "csduxp" then Some(Output(Aligned(text.value, h.width, h.left, h.zero), h.args[1..]))
    else Some(Output(if conv == '%' then "%" else "", h.args))
  }

  /** One conversion specification, after its percent sign. */
  datatype Directive = Directive(text: string, used: nat, args: seq<Arg>)

  function Parse(s: string, args: seq<Arg>): (d: Option<Directive>)
    ensures d.Some? ==> 0 < d.value.used <= |s|
  {
    var head := ParseHead(s, args);
    if head.None? then None
    else
      var out := Convert(head.value, s[head.value.at]);
      if out.None? then None else Some(Directive(out.value.text, head.value.at + 1, out.value.args))
  }

  function Plain(text: string): (items: seq<Item>)
    ensures |items| == |text|
  {
    seq(|text|, k requires 0 <= k < |text| => Item(text[k], false))
  }

  /** Everything a format puts out for its arguments. */
  function Render(fmt: string, args: seq<Arg>): Option<seq<Item>>
    decreases |fmt|
  {
    if fmt == [] then Some([])
    else if fmt[0] != '%' then
      var rest := Render(fmt[1..], args);
      if rest.None? then None else Some([Item(fmt[0], true)] + rest.value)
    else
      var d := Parse(fmt[1..], args);
      if d.None? then None
      else
        var rest := Render(fmt[1 + d.value.used..], d.value.args);
        if rest.None? then None else Some(Plain(d.value.text) + rest.value)
  }

  // ---------- The code ----------

  function Reversed(s: seq<char>): (r: seq<char>)
    ensures |r| == |s|
  {
    seq(|s|, k requires 0 <= k < |s| => s[|s| - 1 - k])
  }

  /** `utoa`: digits are produced last first, then copied in reverse. */
  method Utoa(value: word, buf: array<char>, at: nat, base: nat)
    requires (base == 10 || base == 16) && at + 11 <= buf.Length
    modifies buf
    ensures var d := Digits(value, base);
            |d| <= 10 && buf[at..at + |d| + 1] == d + [NUL] && buf[..at] == old(buf[..at])
  {
    WordDigits(value, base);
    hide Digits, Reversed;
    if value == 0 {
      DigitsOfZero(base);
      buf[at] := '0';
      buf[at + 1] := NUL;
      return;
    }
    var tmp := new char[TMP_SIZE];
    var i := DigitsBackwards(value, tmp, base);
    CopyReversed(tmp, i, buf, at);
  }

  /** The copy loop: the first `n` characters of `tmp` in reverse, then the terminator. */
  method CopyReversed(tmp: array<char>, n: nat, buf: array<char>, at: nat)
    requires n <= tmp.Length && at + n < buf.Length && tmp != buf
    modifies buf
    ensures buf[at..at + n + 1] == Reversed(tmp[..n]) + [NUL] && buf[..at] == old(buf[..at])
  {
    hide Reversed;
    ghost var r := Reversed(tmp[..n]);
    var i, j := n, 0;
    while i > 0
      invariant i + j == n && buf[at..at + j] == r[..j] && buf[..at] == old(buf[..at])
    {
      i := i - 1;
      ReversedAt(tmp[..n], j);
      buf[at + j] := tmp[i];
      assert buf[at..at + j + 1] == buf[at..at + j] + [buf[at + j]] && r[..j + 1] == r[..j] + [r[j]];
      j := j + 1;
    }
    buf[at + j] := NUL;
    assert buf[at..at + j + 1] == buf[at..at + j] + [NUL] && r[..j] == r;
  }

  lemma ReversedAt(s: seq<char>, k: nat)
    requires k < |s|
    ensures Reversed(s)[k] == s[|s| - 1 - k]
  {
  }

  lemma ReversedAppend(s: seq<char>, c: char)
    ensures Reversed(s + [c]) == [c] + Reversed(s)
  {
  }

  lemma DigitsOfZero(base: nat)
    requires 2 <= base <= 16
    ensures Digits(0, base) == "0"
  {
  }

  method DigitsBackwards(value: word, tmp: array<char>, base: nat) returns (i: nat)
    requires 2 <= base <= 16 && 0 < value && |Digits(value, base)| <= 10 < tmp.Length
    modifies tmp
    ensures i <= 10 && Digits(value, base) == Reversed(tmp[..i])
  {
    var v: nat;
    v, i := value, 0;
    assert Leading(value, base) == Digits(value, base) && Reversed([]) == [];
    hide Digits, Reversed, Leading, DigitChar, LastOf, RestOf;
    while v > 0
      invariant v <= value && i <= 10
      invariant Digits(value, base) == Leading(v, base) + Reversed(tmp[..i])
      decreases v
    {
      ghost var done := tmp[..i];
      assert |Digits(value, base)| == |Leading(v, base)| + i;
      var c := DigitChar(LastOf(v, base));
      ReversedAppend(done, c);
      LeadingStep(v, base, Reversed(done));
      tmp[i] := c;
      assert tmp[..i + 1] == done + [c];
      v, i := RestOf(v, base), i + 1;
    }
    LeadingOfZero(base);
    assert [] + Reversed(tmp[..i]) == Reversed(tmp[..i]);
  }

  /** The digits still to be produced. */
  function Leading(v: nat, base: nat): (s: string)
    requires 2 <= base <= 16
    ensures v > 0 ==> |s| > 0
  {
    if v == 0 then [] else Digits(v, base)
  }

  function LastOf(v: nat, base: nat): (d: nat)
    requires 2 <= base <= 16
    ensures d < base
  {
    DivSmaller(v, base);
    v % base
  }

  function RestOf(v: nat, base: nat): (q: nat)
    requires 2 <= base <= 16
    ensures v > 0 ==> q < v
  {
    DivSmaller(v, base);
    v / base
  }

  lemma LeadingOfZero(base: nat)
    requires 2 <= base <= 16
    ensures Leading(0, base) == []
  {
  }

  lemma LeadingStep(v: nat, base: nat, done: string)
    requires 2 <= base <= 16 && v > 0
    ensures Leading(v, base) + done == Leading(RestOf(v, base), base) + ([DigitChar(LastOf(v, base))] + done)
  {
    DigitsStep(v, base);
    hide Digits, DigitChar;
  }

  lemma DigitsStep(v: nat, base: nat)
    requires 2 <= base <= 16 && v > 0
    ensures Digits(v, base) == (if v / base == 0 then [] else Digits(v / base, base)) + [DigitChar(v % base)]
    ensures 0 <= v / base < v && 0 <= v % base < base
  {
    DivSmaller(v, base);
    if v < base {
      Quotient(v, base, 0, v);
    } else {
      DivAtLeastOne(v, base);
    }
  }

  lemma DivAtLeastOne(v: nat, base: nat)
    requires 0 < base <= v
    ensures v / base > 0
  {
  }

  /** Shifts `tmp[start..len]`, the last one included, up by `pad`, from the top. */
  method ShiftUp(tmp: array<char>, start: nat, len: nat, pad: nat)
    requires start <= len && len + pad < tmp.Length
    modifies tmp
    ensures tmp[start + pad..len + pad + 1] == old(tmp[start..len + 1]) && tmp[..start] == old(tmp[..start])
  {
    ghost var was := tmp[..];
    var j: int := len;
    while j >= start
      invariant start - 1 <= j <= len
      invariant tmp[..j + 1] == was[..j + 1]
      invariant tmp[j + 1 + pad..len + pad + 1] == was[j + 1..len + 1]
    {
      tmp[j + pad] := tmp[j];
      assert tmp[j + pad..len + pad + 1] == [was[j]] + tmp[j + 1 + pad..len + pad + 1];
      j := j - 1;
    }
  }

  lemma Slices(now: seq<char>, was: seq<char>, i: nat, j: nat, n: nat)
    requires i <= j <= n <= |now| == |was| && now[..i] == was[..i] && now[j..] == was[j..]
    ensures now[..n] == was[..i] + now[i..j] + was[j..n]
  {
    assert now[j..n] == now[j..][..n - j] == was[j..][..n - j] == was[j..n];
  }

  lemma RepeatStep(c: char, n: nat)
    ensures Repeat(c, n + 1) == Repeat(c, n) + [c] && Repeat(c, 0) == []
  {
  }

  /** Extends the digits of `tmp` from `start` with zeros. */
  method ZeroExtend(tmp: array<char>, start: nat, len: nat, pad: nat)
    requires start <= len && len + pad < tmp.Length
    modifies tmp
    ensures tmp[..len + pad + 1] == old(tmp[..start]) + Repeat('0', pad) + old(tmp[start..len + 1])
  {
    hide Repeat;
    ghost var front, digits := tmp[..start], tmp[start..len + 1];
    ShiftUp(tmp, start, len, pad);
    ghost var shifted := tmp[..];
    assert shifted[..start] == front && shifted[start + pad..len + pad + 1] == digits;
    RepeatStep('0', 0);
    var j := start;
    while j < start + pad
      invariant start <= j <= start + pad
      invariant tmp[..start] == shifted[..start] && tmp[start + pad..] == shifted[start + pad..]
      invariant tmp[start..j] == Repeat('0', j - start)
    {
      RepeatStep('0', j - start);
      tmp[j] := '0';
      assert tmp[start..j + 1] == tmp[start..j] + ['0'];
      j := j + 1;
    }
    Slices(tmp[..], shifted, start, start + pad, len + pad + 1);
    assert tmp[..len + pad + 1] == tmp[..][..len + pad + 1];
  }

  /** The scan for the terminator. */
  method Strlen(tmp: array<char>, ghost text: string) returns (len: nat)
    requires |text| < tmp.Length && tmp[..|text| + 1] == text + [NUL] && NUL !in text
    ensures len == |text|
  {
    len := 0;
    assert forall k | 0 <= k <= |text| :: tmp[k] == (text + [NUL])[k];
    while tmp[len] != NUL
      invariant len <= |text|
      decreases tmp.Length - len
    {
      len := len + 1;
    }
  }

  /** Zero extension to the precision, behind the sign. */
  method Extend(tmp: array<char>, neg: nat, digits: nat, precision: int, ghost sign: string, ghost d: string)
    returns (len: nat)
    requires neg == |sign| && digits == neg + |d| < tmp.Length && tmp[..digits + 1] == sign + d + [NUL]
    requires neg + precision < tmp.Length
    modifies tmp
    ensures len < tmp.Length && tmp[..len] == sign + Repeat('0', precision - |d|) + d
  {
    hide Repeat;
    len := digits;
    assert tmp[..neg] == sign && tmp[neg..len + 1] == d + [NUL] && tmp[..len] == sign + d;
    if precision > len - neg {
      var digitsNeeded := precision - (len - neg);
      ZeroExtend(tmp, neg, len, digitsNeeded);
      len := len + digitsNeeded;
      ghost var zeros := Repeat('0', digitsNeeded);
      assert sign + zeros + (d + [NUL]) == (sign + zeros + d) + [NUL];
      assert tmp[..len] == tmp[..len + 1][..len];
    } else {
      assert sign + Repeat('0', precision - |d|) + d == sign + d;
    }
  }

  /** `%u` and `%x`: leaves the text in `tmp`. */
  method FormatUnsigned(v: word, base: nat, precision: int, tmp: array<char>) returns (len: nat)
    requires (base == 10 || base == 16) && tmp.Length == TMP_SIZE && precision < TMP_SIZE
    modifies tmp
    ensures len < TMP_SIZE && tmp[..len] == NumberText("", v, base, precision)
  {
    hide Digits, Repeat;
    Utoa(v, tmp, 0, base);
    ghost var d := Digits(v, base);
    assert tmp[0..|d| + 1] == tmp[..|d| + 1] && "" + d == d;
    len := Strlen(tmp, d);
    len := Extend(tmp, 0, len, precision, "", d);
  }

  /** `%d`: the sign is written in front once the digits are there. */
  method FormatSigned(w: word, precision: int, tmp: array<char>) returns (len: nat)
    requires tmp.Length == TMP_SIZE && (if Signed(w) < 0 then 1 else 0) + precision < TMP_SIZE
    modifies tmp
    ensures len < TMP_SIZE
    ensures tmp[..len] == if Signed(w) < 0 then NumberText("-", -Signed(w), 10, precision)
                          else NumberText("", w, 10, precision)
  {
    hide Digits, Repeat;
    var val := Signed(w);
    var neg := if val < 0 then 1 else 0;
    if neg == 1 {
      val := -val;
    }
    ghost var sign, d := if neg == 1 then "-" else "", Digits(val, 10);
    Utoa(val, tmp, neg, 10);
    if neg == 1 {
      tmp[0] := '-';
    }
    SignedDigits(tmp[..], neg, sign, d);
    len := Strlen(tmp, sign + d);
    len := Extend(tmp, neg, len, precision, sign, d);
  }

  lemma SignedDigits(tmp: seq<char>, neg: nat, sign: string, d: string)
    requires neg == |sign| && neg + |d| < |tmp| && tmp[..neg] == sign && tmp[neg..neg + |d| + 1] == d + [NUL]
    ensures tmp[..|sign + d| + 1] == sign + d + [NUL]
  {
    assert tmp[..|sign + d| + 1] == tmp[..neg] + tmp[neg..neg + |d| + 1];
  }

  // ---------- Output ----------

  /** `buf` holds what fits of `out`. */
  ghost predicate Shows(buf: array<char>, size: nat, i: nat, out: string)
    reads buf
  {
    0 < size <= buf.Length && i < size && buf[..i] == Take(out, size - 1)
  }

  /** `PUT` */
  method Put(buf: array<char>, size: nat, i: nat, ghost out: string, c: char) returns (j: nat)
    requires Shows(buf, size, i, out)
    modifies buf
    ensures Shows(buf, size, j, out + [c]) && buf[size..] == old(buf[size..])
  {
    j := i;
    if i < size - 1 {
      buf[i] := c;
      j := i + 1;
      assert buf[..j] == buf[..i] + [c];
    }
  }

  method PutRepeated(buf: array<char>, size: nat, i: nat, ghost out: string, c: char, n: int) returns (j: nat)
    requires Shows(buf, size, i, out)
    modifies buf
    ensures Shows(buf, size, j, out + Repeat(c, n)) && buf[size..] == old(buf[size..])
  {
    assert size <= buf.Length;
    hide Shows;
    var left := n;
    j := i;
    assert out + Repeat(c, 0) == out;
    while left > 0
      invariant left <= n && (n >= 0 ==> left >= 0)
      invariant Shows(buf, size, j, out + Repeat(c, if n < 0 then 0 else n - left)) && size <= buf.Length
      invariant buf[size..] == old(buf[size..])
    {
      j := Put(buf, size, j, out + Repeat(c, n - left), c);
      assert out + Repeat(c, n - left) + [c] == out + Repeat(c, n - left + 1);
      left := left - 1;
    }
    assert Repeat(c, n) == Repeat(c, if n < 0 then 0 else n - left);
  }

  method PutAll(buf: array<char>, size: nat, i: nat, ghost out: string, text: string) returns (j: nat)
    requires Shows(buf, size, i, out)
    modifies buf
    ensures Shows(buf, size, j, out + text) && buf[size..] == old(buf[size..])
  {
    assert size <= buf.Length;
    hide Shows;
    j := i;
    assert out + text[..0] == out;
    for k := 0 to |text|
      invariant Shows(buf, size, j, out + text[..k]) && size <= buf.Length && buf[size..] == old(buf[size..])
    {
      j := Put(buf, size, j, out + text[..k], text[k]);
      assert out + text[..k] + [text[k]] == out + text[..k + 1];
    }
    assert text[..|text|] == text;
  }

  /** `PAD_AND_PUT` */
  method PadAndPut(buf: array<char>, size: nat, i: nat, ghost out: string, text: string,
                   width: int, leftAlign: bool, zeroPad: bool) returns (j: nat)
    requires Shows(buf, size, i, out)
    modifies buf
    ensures Shows(buf, size, j, out + Aligned(text, width, leftAlign, zeroPad)) && buf[size..] == old(buf[size..])
  {
    hide Shows, Repeat;
    var pad := width - |text|;
    var c := if zeroPad then '0' else ' ';
    if leftAlign {
      j := PutAll(buf, size, i, out, text);
      j := PutRepeated(buf, size, j, out + text, ' ', pad);
      assert out + text + Repeat(' ', pad) == out + (text + Repeat(' ', pad));
    } else {
      j := PutRepeated(buf, size, i, out, c, pad);
      j := PutAll(buf, size, j, out + Repeat(c, pad), text);
      assert out + Repeat(c, pad) + text == out + (Repeat(c, pad) + text);
    }
  }

  // ---------- Parsing ----------

  method ParseFlags(fmt: string, f: nat) returns (g: nat, leftAlign: bool, zeroPad: bool)
    requires f <= |fmt|
    ensures f <= g <= |fmt| && g - f == FlagCount(fmt[f..])
    ensures leftAlign == ('-' in fmt[f..g]) && zeroPad == ('0' in fmt[f..g] && !leftAlign)
  {
    hide FlagCount;
    g, leftAlign, zeroPad := f, false, false;
    while At(fmt, g) == '-' || At(fmt, g) == '0'
      invariant f <= g <= |fmt| && FlagCount(fmt[f..]) == g - f + FlagCount(fmt[g..])
      invariant leftAlign == ('-' in fmt[f..g]) && zeroPad == ('0' in fmt[f..g])
      decreases |fmt| - g
    {
      FlagCountStep(fmt, g);
      assert fmt[f..g + 1] == fmt[f..g] + [fmt[g]];
      if At(fmt, g) == '-' {
        leftAlign := true;
      }
      if At(fmt, g) == '0' {
        zeroPad := true;
      }
      g := g + 1;
    }
    FlagCountStep(fmt, g);
    if leftAlign {
      zeroPad := false;
    }
  }

  lemma FlagCountStep(s: string, g: nat)
    requires g <= |s|
    ensures FlagCount(s[g..]) == if At(s, g) == '-' || At(s, g) == '0' then 1 + FlagCount(s[g + 1..]) else 0
  {
    assert g < |s| ==> s[g..][1..] == s[g + 1..];
  }

  method ParseDigits(fmt: string, f: nat) returns (n: nat, g: nat)
    requires f <= |fmt|
    ensures f <= g <= |fmt| && g - f == DigitCount(fmt[f..]) && n == ValueOf(fmt[f..g], 10)
  {
    n, g := 0, f;
    assert fmt[f..f] == [];
    ValueOfNothing();
    hide ValueOf, DigitCount, DigitValue;
    while IsDigit(At(fmt, g))
      invariant f <= g <= |fmt| && DigitCount(fmt[f..]) == g - f + DigitCount(fmt[g..])
      invariant n == ValueOf(fmt[f..g], 10)
      decreases |fmt| - g
    {
      DigitCountStep(fmt, g);
      OneMoreDigit(fmt, f, g);
      n := n * 10 + (fmt[g] as int - '0' as int);
      g := g + 1;
    }
    DigitCountStep(fmt, g);
  }

  lemma DigitCountStep(s: string, g: nat)
    requires g <= |s|
    ensures DigitCount(s[g..]) == if IsDigit(At(s, g)) then 1 + DigitCount(s[g + 1..]) else 0
  {
    assert g < |s| ==> s[g..][1..] == s[g + 1..];
  }

  lemma OneMoreDigit(s: string, f: nat, g: nat)
    requires f <= g < |s| && IsDigit(s[g])
    ensures ValueOf(s[f..g + 1], 10) == ValueOf(s[f..g], 10) * 10 + (s[g] as int - '0' as int)
  {
    hide ValueOf;
    assert s[f..g + 1] == s[f..g] + [s[g]];
    LastDigit(s[f..g], s[g], 10);
  }

  lemma ValueOfNothing()
    ensures ValueOf([], 10) == 0
  {
  }

  method ParseNumber(fmt: string, f: nat, args: seq<Arg>) returns (n: int, g: nat, more: seq<Arg>)
    requires f <= |fmt| && Number(fmt[f..], args).Some?
    ensures f <= g <= |fmt| && Number(fmt[f..], args) == Some(Field(n, g - f, more))
  {
    n, g, more := 0, f, args;
    if At(fmt, f) == '*' {
      n, g, more := Signed(args[0].w), f + 1, args[1..];
    } else {
      n, g := ParseDigits(fmt, f);
      assert fmt[f..][..g - f] == fmt[f..g];
    }
  }

  method ParsePrecision(fmt: string, f: nat, args: seq<Arg>) returns (n: int, g: nat, more: seq<Arg>)
    requires f <= |fmt| && Precision(fmt[f..], args).Some?
    ensures f <= g <= |fmt| && Precision(fmt[f..], args) == Some(Field(n, g - f, more))
  {
    hide Number;
    n, g, more := -1, f, args;
    if At(fmt, f) == '.' {
      assert fmt[f..][1..] == fmt[f + 1..];
      n, g, more := ParseNumber(fmt, f + 1, args);
    }
  }

  method ParseUpToConversion(fmt: string, f: nat, args: seq<Arg>) returns (h: Head)
    requires f <= |fmt| && ParseHead(fmt[f..], args).Some?
    ensures Some(h) == ParseHead(fmt[f..], args)
  {
    hide Number, Precision, FlagCount;
    var s := fmt[f..];
    var g, leftAlign, zeroPad := ParseFlags(fmt, f);
    assert s[..g - f] == fmt[f..g] && s[g - f..] == fmt[g..];
    var width, g2, args2 := ParseNumber(fmt, g, args);
    assert s[g2 - f..] == fmt[g2..];
    var precision, g3, args3 := ParsePrecision(fmt, g2, args2);
    h := Head(leftAlign, zeroPad, width, precision, g3 - f, args3);
  }

  // ---------- Conversions ----------

  /** The numeric cases: the digits, sign and zero extension are built in `tmp`. */
  method FormatNumber(conv: char, precision: int, args: seq<Arg>, tmp: array<char>) returns (len: nat)
    requires conv in "duxp" && Converted(conv, precision, args).Some?
    requires tmp.Length == if conv == 'p' then TMP_SIZE + 2 else TMP_SIZE
    modifies tmp
    ensures len <= tmp.Length && Converted(conv, precision, args) == Some(tmp[..len])
  {
    hide Digits, Repeat, NumberText;
    var w := args[0].w;
    match conv {
      case 'd' =>
        len := FormatSigned(w, precision, tmp);
      case 'u' =>
        len := FormatUnsigned(w, 10, precision, tmp);
      case 'x' =>
        len := FormatUnsigned(w, 16, precision, tmp);
      case _ =>
        tmp[0], tmp[1] := '0', 'x';
        Utoa(w, tmp, 2, 16);
        ghost var d := Digits(w, 16);
        SignedDigits(tmp[..], 2, "0x", d);
        len := Strlen(tmp, "0x" + d);
        assert tmp[..len] == tmp[..len + 1][..len] == "0x" + d;
    }
  }

  /** The switch over the conversion character. */
  method PutConversion(buf: array<char>, size: nat, i: nat, ghost out: string, h: Head, conv: char)
    returns (j: nat, more: seq<Arg>)
    requires Shows(buf, size, i, out) && Convert(h, conv).Some?
    modifies buf
    ensures Shows(buf, size, j, out + Convert(h, conv).value.text) && buf[size..] == old(buf[size..])
    ensures more == Convert(h, conv).value.args
  {
    hide Shows, Aligned, Digits, Repeat, Signed, NumberText;
    j, more := i, h.args;
    if conv == '%' {
      j := Put(buf, size, i, out, '%');
    } else if conv !in "csduxp" {
      assert out + "" == out;
    } else {
      var text;
      if conv == 'c' {
        text := [(h.args[0].w % 256) as char];
      } else if conv == 's' {
        var s := if h.args[0].Null? then "(null)" else h.args[0].s;
        var len := |s|;
        if h.precision >= 0 && h.precision < len {
          len := h.precision;
        }
        assert s[..|s|] == s;
        text := s[..len];
      } else {
        var tmp := new char[if conv == 'p' then TMP_SIZE + 2 else TMP_SIZE];
        var len := FormatNumber(conv, h.precision, h.args, tmp);
        text := tmp[..len];
      }
      assert Converted(conv, h.precision, h.args) == Some(text);
      j := PadAndPut(buf, size, i, out, text, h.width, h.left, h.zero);
      more := h.args[1..];
    }
  }

  // ---------- vsnprintf ----------

  function Chars(items: seq<Item>): (s: string)
    ensures |s| == |items|
  {
    seq(|items|, k requires 0 <= k < |items| => items[k].c)
  }

  /** A literal meets a buffer that is already full. */
  predicate LiteralPastEnd(items: seq<Item>, size: nat) {
    exists k :: size - 1 <= k < |items| && 0 <= k && items[k].literal
  }

  /** `Stuck`: a literal that finds the buffer full is not stepped over, so the loop never ends. */
  datatype Result = Returned(n: nat) | Stuck

  /** A format without conversions puts out itself, all of it literal. */
  lemma {:induction false} LiteralFormat(fmt: string, args: seq<Arg>)
    requires '%' !in fmt
    ensures Render(fmt, args).Some? && |Render(fmt, args).value| == |fmt|
    ensures forall item <- Render(fmt, args).value :: item.literal
    decreases |fmt|
  {
    hide Parse;
    if fmt != [] {
      LiteralFormat(fmt[1..], args);
    }
  }

  /** Such a format is stuck exactly when it does not fit the buffer with its terminator. */
  lemma LiteralIsStuckIffTooLong(fmt: string, args: seq<Arg>, size: nat)
    requires '%' !in fmt && size > 0
    ensures Render(fmt, args).Some?
    ensures LiteralPastEnd(Render(fmt, args).value, size) <==> |fmt| >= size
  {
    LiteralFormat(fmt, args);
    hide Render;
    var items := Render(fmt, args).value;
    assert |fmt| >= size ==> items[size - 1] in items;
  }

  /** What the format from `f` on puts out, split at its first character or conversion. */
  lemma RenderStep(fmt: string, f: nat, args: seq<Arg>)
    requires f < |fmt| && Render(fmt[f..], args).Some?
    ensures var all := Render(fmt[f..], args).value;
            if fmt[f] != '%' then
              var rest := Render(fmt[f + 1..], args);
              rest.Some? && all == [Item(fmt[f], true)] + rest.value
            else
              var d := Parse(fmt[f + 1..], args);
              && d.Some? && f + 1 + d.value.used <= |fmt|
              && var rest := Render(fmt[f + 1 + d.value.used..], d.value.args);
              rest.Some? && all == Plain(d.value.text) + rest.value
  {
    hide Parse;
    assert fmt[f..][1..] == fmt[f + 1..];
    if fmt[f] == '%' {
      var d := Parse(fmt[f + 1..], args);
      if d.Some? {
        assert fmt[f..][1 + d.value.used..] == fmt[f + 1 + d.value.used..];
      }
    }
  }

  lemma Appending(done: seq<Item>, more: seq<Item>, size: nat)
    requires size > 0 && !LiteralPastEnd(done, size)
    requires |done + more| <= size - 1 || forall m <- more :: !m.literal
    ensures Chars(done + more) == Chars(done) + Chars(more) && !LiteralPastEnd(done + more, size)
  {
    forall k | size - 1 <= k < |done + more|
      ensures !(done + more)[k].literal
    {
      if k < |done| {
        assert !done[k].literal;
      } else {
        assert more[k - |done|] in more;
      }
    }
  }

  lemma PlainChars(text: string)
    ensures Chars(Plain(text)) == text && forall m <- Plain(text) :: !m.literal
  {
  }

  lemma OneChar(item: Item)
    ensures Chars([item]) == [item.c]
  {
  }

  lemma LiteralMeetsEnd(done: seq<Item>, rest: seq<Item>, size: nat)
    requires |done| >= size - 1 && rest != [] && rest[0].literal
    ensures LiteralPastEnd(done + rest, size)
  {
    assert (done + rest)[|done|] == rest[0];
  }

  /** The loop body from a percent sign: parses the specification and puts the conversion out. */
  method PutDirective(buf: array<char>, size: nat, i: nat, ghost out: string, fmt: string, f: nat, args: seq<Arg>)
    returns (j: nat, g: nat, more: seq<Arg>)
    requires Shows(buf, size, i, out) && f <= |fmt| && Parse(fmt[f..], args).Some?
    modifies buf
    ensures buf[size..] == old(buf[size..])
    ensures var d := Parse(fmt[f..], args).value;
            Shows(buf, size, j, out + d.text) && g == f + d.used && more == d.args
  {
    hide Shows, ParseHead, Convert;
    var h := ParseUpToConversion(fmt, f, args);
    g := f + h.at + 1;
    j, more := PutConversion(buf, size, i, out, h, fmt[g - 1]);
  }

  lemma Regroup<T>(a: seq<T>, b: seq<T>, c: seq<T>)
    ensures a + (b + c) == a + b + c
  {
  }

  method Vsnprintf(buf: array<char>, size: nat, fmt: CText, args: seq<Arg>) returns (r: Result)
    requires 0 < size <= buf.Length && Render(fmt, args).Some?
    modifies buf
    ensures var items := Render(fmt, args).value;
            && (r == Stuck <==> LiteralPastEnd(items, size))
            && (r.Returned? ==> r.n < size && buf[..r.n] == Take(Chars(items), size - 1) && buf[r.n] == NUL)
    ensures buf[size..] == old(buf[size..])
  {
    hide Parse, LiteralPastEnd, Render, Chars, Plain;
    ghost var items, done := Render(fmt, args).value, [];
    var f: nat, i: nat, rest := 0, 0, args;
    RenderStart(fmt, args, size);
    while f < |fmt|
      invariant f <= |fmt| && Shows(buf, size, i, Chars(done)) && !LiteralPastEnd(done, size)
      invariant Render(fmt[f..], rest).Some? && items == done + Render(fmt[f..], rest).value
      invariant buf[size..] == old(buf[size..])
      decreases |fmt| - f
    {
      RenderStep(fmt, f, rest);
      if fmt[f] != '%' {
        if i >= size - 1 {
          LiteralMeetsEnd(done, Render(fmt[f..], rest).value, size);
          return Stuck;
        }
        ghost var item := [Item(fmt[f], true)];
        OneChar(item[0]);
        Appending(done, item, size);
        Regroup(done, item, Render(fmt[f + 1..], rest).value);
        i := Put(buf, size, i, Chars(done), fmt[f]);
        f := f + 1;
        done := done + item;
      } else {
        ghost var text := Parse(fmt[f + 1..], rest).value.text;
        PlainChars(text);
        Appending(done, Plain(text), size);
        i, f, rest := PutDirective(buf, size, i, Chars(done), fmt, f + 1, rest);
        Regroup(done, Plain(text), Render(fmt[f..], rest).value);
        done := done + Plain(text);
      }
    }
    RenderEnd(fmt, f, rest);
    assert items == done;
    buf[i] := NUL;
    r := Returned(i);
  }

  lemma ParseString(s: CText, text: string, more: seq<Arg>)
    requires text != [] && text[0] == 's' && |s| < INT_LIMIT
    ensures Parse(text, [Str(s)] + more) == Some(Directive(s, 1, more))
  {
    var args := [Str(s)] + more;
    assert text[0..] == text && text[..0] == [] && args[1..] == more;
    assert Repeat(' ', 0 - |s|) + s == s;
  }

  /** The two formats the archive file system builds paths with. */
  lemma RenderOneString(s: CText)
    requires |s| < INT_LIMIT
    ensures Render("%s", [Str(s)]) == Some(Plain(s))
  {
    hide Parse;
    var fmt := "%s";
    ParseString(s, fmt[1..], []);
    assert [Str(s)] + [] == [Str(s)] && fmt[2..] == [] && Plain(s) + [] == Plain(s);
  }

  lemma RenderTwoStrings(a: CText, b: CText)
    requires |a| < INT_LIMIT && |b| < INT_LIMIT
    ensures Render("%s/%s", [Str(a), Str(b)]) == Some(Plain(a) + ([Item('/', true)] + Plain(b)))
  {
    hide Parse;
    var fmt := "%s/%s";
    ParseString(a, fmt[1..], [Str(b)]);
    assert [Str(a)] + [Str(b)] == [Str(a), Str(b)];
    RenderOneString(b);
    assert fmt[2..] == "/%s" && fmt[2..][1..] == "%s";
    assert Render(fmt[2..], [Str(b)]) == Some([Item('/', true)] + Plain(b));
  }

  lemma RenderStart(fmt: string, args: seq<Arg>, size: nat)
    requires size > 0
    ensures fmt[0..] == fmt && Chars([]) == [] && !LiteralPastEnd([], size)
  {
  }

  lemma RenderEnd(fmt: string, f: nat, args: seq<Arg>)
    requires f == |fmt|
    ensures Render(fmt[f..], args) == Some([])
  {
  }
}
