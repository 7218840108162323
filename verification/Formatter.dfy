/** lib/basics.h: the formatter.  Whatever does not fit in the buffer is counted but not written. */
module Formatter {
  import opened Bits

  /** A piece of a character buffer: String. */
  datatype Str = Str(data: array<char>, begin: nat, count: nat) {
    predicate Valid() {
      begin + count <= data.Length
    }

    /** Str__suffix */
    function Suffix(n: nat): (s: Str)
      requires Valid() && n <= count
      ensures s.Valid() && s.data == data
    {
      Str(data, begin + n, count - n)
    }
  }

  /** What an `any` holds; narrow integers are stored widened.  A null string prints as nothing. */
  datatype Any =
    | Bool(b: bool)
    | Unsigned(u: u64)
    | Signed(i: int)
    | Char(c: char)
    | CString(s: string)
    | NullString
    | Untyped

  predicate InRange(v: Any) {
    (v.Signed? ==> -(TWO64 / 2) <= v.i < TWO64 / 2) && (v.CString? ==> NUL !in v.s)
  }

  const NUL: char := '\0'
  const NTOA_BUFFER_SIZE: nat := 32

  // ---------------------------------------------------------------- numerals

  function DigitChar(d: nat): char
    requires d < 10
  {
    ('0' as int + d) as char
  }

  /** The decimal numeral of v. */
  function Digits(v: nat): string {
    (if v < 10 then "" else Digits(v / 10)) + [DigitChar(v % 10)]
  }

  function Numeral(v: int): string {
    if v < 0 then "-" + Digits(-v) else Digits(v)
  }

  predicate IsDigit(c: char) {
    '0' <= c <= '9'
  }

  predicate AllDigits(s: string) {
    forall c | c in s :: IsDigit(c)
  }

  function ParseDigits(s: string): nat
    requires AllDigits(s)
  {
    if s == "" then 0
    else
      assert s[|s| - 1] in s && IsDigit(s[|s| - 1]);
      10 * ParseDigits(s[..|s| - 1]) + (s[|s| - 1] as int - '0' as int)
  }

  /** A numeral without its sign. */
  function Magnitude(s: string): string {
    if s != "" && s[0] == '-' then s[1..] else s
  }

  function Parse(s: string): int
    requires AllDigits(Magnitude(s))
  {
    if s != "" && s[0] == '-' then 0 - ParseDigits(Magnitude(s)) else ParseDigits(Magnitude(s))
  }

  lemma ParseLast(s: string, d: nat)
    requires AllDigits(s) && d < 10
    ensures AllDigits(s + [DigitChar(d)]) && ParseDigits(s + [DigitChar(d)]) == 10 * ParseDigits(s) + d
  {
    var t := s + [DigitChar(d)];
    assert t[..|t| - 1] == s && t[|t| - 1] == DigitChar(d);
  }

  lemma {:induction false} DigitsParse(v: nat)
    ensures AllDigits(Digits(v)) && Digits(v) != "" && ParseDigits(Digits(v)) == v
  {
    if v < 10 {
      ParseLast("", v);
    } else {
      DigitsParse(v / 10);
      ParseLast(Digits(v / 10), v % 10);
    }
  }

  /** The string is the decimal numeral of v: it parses to v, without a leading zero, and has a sign
      only if v is negative. */
  predicate IsNumeral(s: string, v: int) {
    && Magnitude(s) != "" && AllDigits(Magnitude(s)) && Parse(s) == v
    && (|Magnitude(s)| > 1 ==> Magnitude(s)[0] != '0') && (s[0] == '-' ==> v < 0)
  }

  lemma {:induction false} NoLeadingZero(v: nat)
    ensures Digits(v) != "" && (v > 0 ==> Digits(v)[0] != '0') && (v < 10 ==> |Digits(v)| == 1)
  {
    if v >= 10 { NoLeadingZero(v / 10); }
  }

  /** A rendered number parses back to its value. */
  lemma NumeralParses(v: int)
    ensures IsNumeral(Numeral(v), v)
  {
    var m: nat := if v < 0 then -v else v;
    DigitsParse(m);
    NoLeadingZero(m);
    if v < 0 {
      assert Numeral(v)[1..] == Digits(-v);
    } else {
      assert Digits(v)[0] in Digits(v);
    }
  }

  function Pow10(n: nat): (r: nat)
    ensures r >= 1
  {
    if n == 0 then 1 else 10 * Pow10(n - 1)
  }

  lemma Pow10Step(v: nat, n: nat)
    requires n > 0 && v < Pow10(n)
    ensures v / 10 < Pow10(n - 1)
  {
  }

  /** A machine word has at most 20 decimal digits. */
  lemma WordBelowPow10() returns (n: nat)
    ensures n == 20 && TWO64 <= Pow10(n)
  {
    n := 20;
    assert Pow10(5) == 100000;
    assert Pow10(10) == 100000 * Pow10(5) by { assert Pow10(6) == 10 * Pow10(5); assert Pow10(8) == 100 * Pow10(6); }
    assert Pow10(15) == 100000 * Pow10(10) by { assert Pow10(11) == 10 * Pow10(10); assert Pow10(13) == 100 * Pow10(11); }
    assert Pow10(20) == 100000 * Pow10(15) by { assert Pow10(16) == 10 * Pow10(15); assert Pow10(18) == 100 * Pow10(16); }
  }

  // ---------------------------------------------------------------- clipped writes

  function Clip(t: string, n: nat): (r: string)
    ensures |r| <= n && |r| <= |t|
  {
    if |t| <= n then t else t[..n]
  }

  function Overwrite(b: string, at: nat, t: string): string
    requires at + |t| <= |b|
  {
    b[..at] + t + b[at + |t|..]
  }

  /** What s.data holds once the text has been written to s. */
  function Written(b: string, s: Str, text: string): string
    requires s.begin + s.count <= |b|
  {
    Overwrite(b, s.begin, Clip(text, s.count))
  }

  /** Writing t and then u behind it is writing t + u. */
  lemma WrittenTwice(b: string, s: Str, t: string, u: string)
    requires s.Valid() && s.data.Length == |b|
    ensures |Written(b, s, t)| == |b|
    ensures var n := if |t| < s.count then |t| else s.count;
            Written(Written(b, s, t), s.Suffix(n), u) == Written(b, s, t + u)
  {
  }

  lemma WrittenNothing(b: string, s: Str)
    requires s.Valid() && s.data.Length == |b|
    ensures Written(b, s, "") == b
  {
  }

  /** Position by position: the text as far as the buffer goes, and the old contents elsewhere. */
  predicate HoldsText(after: string, before: string, s: Str, text: string) {
    |after| == |before| &&
    forall p | 0 <= p < |after| ::
      after[p] == if s.begin <= p < s.begin + s.count && p < s.begin + |text| then text[p - s.begin] else before[p]
  }

  lemma WrittenHolds(b: string, s: Str, text: string)
    requires s.Valid() && s.data.Length == |b|
    ensures HoldsText(Written(b, s, text), b, s, text)
    ensures |text| <= s.count ==> Written(b, s, text)[s.begin..s.begin + |text|] == text
  {
  }

  /** `if (written < len) out.data[written] = c` and _out_buffer */
  method Put(s: Str, ghost b: string, ghost text: string, written: nat, c: char)
    requires s.Valid() && |b| == s.data.Length && written == |text| && s.data[..] == Written(b, s, text)
    modifies s.data
    ensures s.data[..] == Written(b, s, text + [c])
  {
    if written < s.count { s.data[s.begin + written] := c; }
  }

  // ---------------------------------------------------------------- strings and numbers

  /** strcpy_s, for a string without its terminator. */
  method StrcpyS(dest: Str, src: string) returns (written: nat)
    requires dest.Valid()
    modifies dest.data
    ensures written == |Clip(src, dest.count)|
    ensures dest.data[..] == Written(old(dest.data[..]), dest, src)
  {
    ghost var b := dest.data[..];
    written := 0;
    WrittenNothing(b, dest);
    while written < dest.count && written < |src|
      invariant written <= dest.count && written <= |src| && dest.data[..] == Written(b, dest, src[..written])
    {
      TakeOne(src, written);
      Put(dest, b, src[..written], written, src[written]);
      written := written + 1;
    }
    assert Clip(src, dest.count) == Clip(src[..written], dest.count);
  }

  function Reverse(s: string): (r: string)
    ensures |r| == |s|
  {
    seq(|s|, i requires 0 <= i < |s| => s[|s| - 1 - i])
  }

  lemma ReverseGrows(s: string, c: char)
    ensures Reverse(s + [c]) == [c] + Reverse(s)
  {
  }

  lemma TakeOne(s: string, n: nat)
    requires n < |s|
    ensures s[..n] + [s[n]] == s[..n + 1]
  {
  }

  /** _out_rev without padding: the characters of buf in reverse. */
  method OutRev(s: Str, buf: array<char>, digits: nat) returns (idx: nat)
    requires s.Valid() && s.data != buf && digits <= buf.Length
    modifies s.data
    ensures idx == digits && s.data[..] == Written(old(s.data[..]), s, Reverse(buf[..digits]))
  {
    ghost var b, text := s.data[..], Reverse(buf[..digits]);
    var len := digits;
    idx := 0;
    WrittenNothing(b, s);
    while len > 0
      invariant idx + len == digits && s.data[..] == Written(b, s, text[..idx])
    {
      len := len - 1;
      assert buf[len] == text[idx];
      TakeOne(text, idx);
      Put(s, b, text[..idx], idx, buf[len]);
      idx := idx + 1;
    }
    assert text[..idx] == text;
  }

  /** One round of the digit loop: the last digit of the rest joins those found so far. */
  lemma DigitRound(all: string, rest: nat, found: string)
    requires all == Digits(rest) + Reverse(found)
    ensures all == (if rest < 10 then "" else Digits(rest / 10)) + Reverse(found + [DigitChar(rest % 10)])
  {
    ReverseGrows(found, DigitChar(rest % 10));
  }

  /** The digits found so far and the rest make up the numeral; `room` digits may still come. */
  ghost predicate Digested(value: nat, rest: nat, found: string, room: nat) {
    room > 0 && rest < Pow10(room) && Digits(value) == Digits(rest) + Reverse(found)
  }

  lemma DigestOne(value: nat, rest: nat, found: string, room: nat)
    requires Digested(value, rest, found, room)
    ensures rest / 10 > 0 ==> Digested(value, rest / 10, found + [DigitChar(rest % 10)], room - 1)
    ensures rest / 10 == 0 ==> Digits(value) == Reverse(found + [DigitChar(rest % 10)])
  {
    DigitRound(Digits(value), rest, found);
    Pow10Step(rest, room);
  }

  /** The digit loop of _ntoa_long in base 10; the buffer limit is never what ends it. */
  method DigitLoop(value: u64, buf: array<char>) returns (len: nat)
    requires buf.Length == NTOA_BUFFER_SIZE
    modifies buf
    ensures 1 <= len <= 20 && Reverse(buf[..len]) == Digits(value)
  {
    ghost var room := WordBelowPow10();
    ghost var found := "";
    len := 0;
    var rest: nat := value;
    while true
      invariant len + room == 20 && len == |found| && Digested(value, rest, found, room)
      invariant forall j | 0 <= j < len :: buf[j] == found[j]
      decreases room
    {
      DigestOne(value, rest, found, room);
      room := room - 1;
      found := found + [DigitChar(rest % 10)];
      buf[len] := DigitChar(rest % 10);
      rest, len := rest / 10, len + 1;
      if rest == 0 || len >= NTOA_BUFFER_SIZE { break; }
    }
    assert buf[..len] == found;
  }

  /** _ntoa_long and _ntoa_format in base 10 without flags, width or precision. */
  method NtoaLong(s: Str, value: u64, negative: bool) returns (n: nat)
    requires s.Valid() && (negative ==> value > 0)
    modifies s.data
    ensures n == |Numeral(if negative then 0 - value else value)|
    ensures s.data[..] == Written(old(s.data[..]), s, Numeral(if negative then 0 - value else value))
  {
    var buf := new char[NTOA_BUFFER_SIZE](_ => ' ');
    var len := DigitLoop(value, buf);
    ghost var digits := buf[..len];
    if len < NTOA_BUFFER_SIZE {
      if negative {
        buf[len] := '-';
        len := len + 1;
        assert Reverse(buf[..len]) == "-" + Reverse(digits);
      }
    }
    n := OutRev(s, buf, len);
  }

  /** fmt_i64; the absolute value is computed on 64 bits, which is right for the least number too. */
  method FmtI64(s: Str, value: int) returns (n: nat)
    requires s.Valid() && -(TWO64 / 2) <= value < TWO64 / 2
    modifies s.data
    ensures n == |Numeral(value)| && s.data[..] == Written(old(s.data[..]), s, Numeral(value))
  {
    var magnitude: u64 := if value < 0 then (TWO64 - value) % TWO64 else value;
    n := NtoaLong(s, magnitude, value < 0);
  }

  // ---------------------------------------------------------------- any__fmt_any and any__fmt

  /** The text, or what was rendered before argument `arg` failed. */
  datatype Outcome = Rendered(text: string) | Failed(text: string, arg: nat)

  /** The unlimited rendering of one argument, or failure. */
  function Text(v: Any): Outcome {
    match v
    case Bool(b) => Rendered(if b then "true" else "false")
    case Unsigned(u) => Rendered(Numeral(u))
    case Signed(i) => Rendered(Numeral(i))
    case Char(c) => Rendered([c])
    case CString(s) => Rendered(s)
    case NullString => Rendered("")
    case Untyped => Failed("", 0)
  }

  /** The characters are what the argument should print: a number's numeral, a word for a truth value,
      and characters and strings as they are. */
  predicate Shows(t: string, v: Any) {
    match v
    case Bool(b) => t == if b then "true" else "false"
    case Unsigned(u) => IsNumeral(t, u)
    case Signed(i) => IsNumeral(t, i)
    case Char(c) => t == [c]
    case CString(s) => t == s
    case NullString => t == ""
    case Untyped => false
  }

  lemma TextShows(v: Any)
    ensures Text(v).Failed? <==> v.Untyped?
    ensures Text(v).Rendered? ==> Shows(Text(v).text, v)
  {
    match v
    case Unsigned(u) => NumeralParses(u);
    case Signed(i) => NumeralParses(i);
    case _ =>
  }

  /** any__fmt_any, where everything fits: the characters written show the argument. */
  method FmtAny(s: Str, v: Any) returns (n: int)
    requires s.Valid() && InRange(v)
    modifies s.data
    ensures n < 0 <==> v.Untyped?
    ensures v.Bool? ==> n == (if v.b then 4 else 5)
    ensures v.Char? ==> n == 1
    ensures v.CString? ==> n == |v.s|
    ensures v.NullString? ==> n == 0
    ensures 0 <= n <= s.count && v.Bool? ==> s.data[s.begin..s.begin + n] == (if v.b then "true" else "false")
    ensures 0 <= n <= s.count && v.Unsigned? ==> IsNumeral(s.data[s.begin..s.begin + n], v.u)
    ensures 0 <= n <= s.count && v.Signed? ==> IsNumeral(s.data[s.begin..s.begin + n], v.i)
    ensures 0 <= n <= s.count && v.Char? ==> s.data[s.begin..s.begin + n] == [v.c]
    ensures 0 <= n <= s.count && v.CString? ==> s.data[s.begin..s.begin + n] == v.s
    ensures Text(v).Rendered? ==> n == |Text(v).text| && s.data[..] == Written(old(s.data[..]), s, Text(v).text)
    ensures Text(v).Failed? ==> n < 0 && s.data[..] == old(s.data[..])
  {
    ghost var b := s.data[..];
    n := FmtText(s, v);
    TextShows(v);
    if n >= 0 {
      WrittenHolds(b, s, Text(v).text);
      assert n <= s.count ==> s.data[s.begin..s.begin + n] == s.data[..][s.begin..s.begin + n];
    }
  }

  method FmtText(s: Str, v: Any) returns (n: int)
    requires s.Valid() && InRange(v)
    modifies s.data
    ensures Text(v).Rendered? ==> n == |Text(v).text| && s.data[..] == Written(old(s.data[..]), s, Text(v).text)
    ensures Text(v).Failed? ==> n < 0 && s.data[..] == old(s.data[..])
  {
    WrittenNothing(s.data[..], s);
    match v
    case Bool(b) =>
      var src := if b then "true" else "false";
      var written := StrcpyS(s, src);
      n := written + |src[written..]|;
    case Unsigned(u) =>
      n := NtoaLong(s, u, false);
    case Signed(i) =>
      n := FmtI64(s, i);
    case Char(c) =>
      Put(s, s.data[..], "", 0, c);
      assert "" + [c] == [c];
      n := 1;
    case CString(src) =>
      var written := StrcpyS(s, src);
      n := written + |src[written..]|;
    case NullString =>
      n := 0;
    case Untyped =>
      n := -1;
  }

  /** The character at i of a string that ends with the null character. */
  function At(fmt: string, i: nat): char {
    if i < |fmt| then fmt[i] else NUL
  }

  /** The unlimited rendering: `text` so far, from position i of the format and argument k on. */
  function Render(fmt: string, args: seq<Any>, i: nat, k: nat, text: string): Outcome
    decreases |fmt| - i
  {
    if i >= |fmt| then
      if k == |args| then Rendered(text) else Failed(text, k)
    else if fmt[i] != '%' then
      Render(fmt, args, i + 1, k, text + [fmt[i]])
    else if At(fmt, i + 1) == '%' then
      Render(fmt, args, i + 2, k, text + "%")
    else if At(fmt, i + 1) != 'f' || k >= |args| || Text(args[k]).Failed? then
      Failed(text, k)
    else
      Render(fmt, args, i + 2, k + 1, text + Text(args[k]).text)
  }

  /** A format as a list of literal characters and places for arguments. */
  datatype Item = Literal(c: char) | Hole

  datatype Template = Template(items: seq<Item>) | Malformed

  function Parsed(fmt: string, i: nat): Template
    decreases |fmt| - i
  {
    if i >= |fmt| then Template([])
    else if fmt[i] != '%' then Prepend(Literal(fmt[i]), Parsed(fmt, i + 1))
    else if At(fmt, i + 1) == '%' then Prepend(Literal('%'), Parsed(fmt, i + 2))
    else if At(fmt, i + 1) == 'f' then Prepend(Hole, Parsed(fmt, i + 2))
    else Malformed
  }

  function Prepend(item: Item, t: Template): Template {
    if t.Malformed? then Malformed else Template([item] + t.items)
  }

  function Holes(items: seq<Item>): nat {
    if items == [] then 0 else (if items[0] == Hole then 1 else 0) + Holes(items[1..])
  }

  /** The items with the arguments from k on in the holes. */
  function Fill(items: seq<Item>, args: seq<Any>, k: nat): string
    requires k + Holes(items) <= |args|
  {
    if items == [] then ""
    else if items[0] == Hole then Text(args[k]).text + Fill(items[1..], args, k + 1)
    else [items[0].c] + Fill(items[1..], args, k)
  }

  predicate Printable(args: seq<Any>, k: nat) {
    forall j | k <= j < |args| :: Text(args[j]).Rendered?
  }

  /** The outcome of formatting from position i on is that of filling the items parsed there. */
  predicate FilledIn(o: Outcome, fmt: string, args: seq<Any>, i: nat, k: nat, text: string)
    requires k <= |args|
  {
    var p := Parsed(fmt, i);
    && (o.Rendered? <==> p.Template? && k + Holes(p.items) == |args| && Printable(args, k))
    && (o.Rendered? ==> o.text == text + Fill(p.items, args, k))
  }

  lemma FillLiteral(o: Outcome, fmt: string, args: seq<Any>, i: nat, next: nat, k: nat, text: string, c: char)
    requires k <= |args| && Parsed(fmt, i) == Prepend(Literal(c), Parsed(fmt, next))
    requires FilledIn(o, fmt, args, next, k, text + [c])
    ensures FilledIn(o, fmt, args, i, k, text)
  {
    var p := Parsed(fmt, next);
    if p.Template? { assert ([Literal(c)] + p.items)[1..] == p.items; }
    if o.Rendered? { Joined(text, [c], Fill(p.items, args, k)); }
  }

  lemma FillHole(o: Outcome, fmt: string, args: seq<Any>, i: nat, next: nat, k: nat, text: string, shown: string)
    requires k < |args| && Parsed(fmt, i) == Prepend(Hole, Parsed(fmt, next)) && Text(args[k]) == Rendered(shown)
    requires FilledIn(o, fmt, args, next, k + 1, text + shown)
    ensures FilledIn(o, fmt, args, i, k, text)
  {
    var p := Parsed(fmt, next);
    assert Printable(args, k) <==> Printable(args, k + 1);
    if p.Template? { assert ([Hole] + p.items)[1..] == p.items; }
    if o.Rendered? { Joined(text, shown, Fill(p.items, args, k + 1)); }
  }

  /** Formatting succeeds exactly for well-formed formats with one printable argument for each hole,
      and renders the items in order. */
  lemma {:induction false} RenderFills(fmt: string, args: seq<Any>, i: nat, k: nat, text: string)
    requires k <= |args|
    ensures FilledIn(Render(fmt, args, i, k, text), fmt, args, i, k, text)
    decreases |fmt| - i
  {
    var o := Render(fmt, args, i, k, text);
    if i < |fmt| && (fmt[i] != '%' || At(fmt, i + 1) == '%') {
      var next := if fmt[i] == '%' then i + 2 else i + 1;
      RenderFills(fmt, args, next, k, text + [fmt[i]]);
      FillLiteral(o, fmt, args, i, next, k, text, fmt[i]);
    } else if i < |fmt| && At(fmt, i + 1) == 'f' && k < |args| && Text(args[k]).Rendered? {
      var shown, next := Text(args[k]).text, i + 2;
      RenderFills(fmt, args, next, k + 1, text + shown);
      FillHole(o, fmt, args, i, next, k, text, shown);
    }
  }

  /** The format that asks for these items. */
  function FormatOf(items: seq<Item>): string {
    if items == [] then ""
    else
      (match items[0]
       case Hole => "%f"
       case Literal(c) => if c == '%' then "%%" else [c]) + FormatOf(items[1..])
  }

  /** The text shows the items in order, with the arguments from k on in the holes. */
  ghost predicate ShowsItems(t: string, items: seq<Item>, args: seq<Any>, k: nat) {
    if items == [] then t == ""
    else
      match items[0]
      case Literal(c) => t != "" && t[0] == c && ShowsItems(t[1..], items[1..], args, k)
      case Hole =>
        k < |args| && exists n: nat :: n <= |t| && Shows(t[..n], args[k]) && ShowsItems(t[n..], items[1..], args, k + 1)
  }

  /** Formatting ends at position j: at the end with arguments left over, at a directive other than %f
      and %%, or at an %f whose argument is missing or cannot be printed. */
  predicate StopsAt(fmt: string, j: nat, args: seq<Any>, k: nat) {
    if j >= |fmt| then k < |args|
    else
      fmt[j] == '%' && At(fmt, j + 1) != '%' && (At(fmt, j + 1) == 'f' ==> k >= |args| || args[k].Untyped?)
  }

  /** Up to position j the format asks for these items, and t shows them. */
  ghost predicate Explains(fmt: string, args: seq<Any>, i: nat, k: nat, t: string, items: seq<Item>, j: nat) {
    i <= j <= |fmt| && fmt[i..j] == FormatOf(items) && ShowsItems(t, items, args, k)
  }

  /** The outcome adds the text t to what was there, and says whether and where formatting stopped. */
  ghost predicate Explained(o: Outcome, fmt: string, args: seq<Any>, i: nat, k: nat, text: string,
                            t: string, items: seq<Item>, j: nat) {
    && o.text == text + t && Explains(fmt, args, i, k, t, items, j)
    && match o
       case Rendered(_) => j == |fmt| && k + Holes(items) == |args|
       case Failed(_, arg) => arg == k + Holes(items) && StopsAt(fmt, j, args, arg)
  }

  /** What Render does, without it: the text it adds shows the items that the format asks for up to some
      position, and it succeeds if that is the end and no argument is left over. */
  lemma {:induction false} RenderExplained(fmt: string, args: seq<Any>, i: nat, k: nat, text: string)
    returns (t: string, items: seq<Item>, j: nat)
    requires i <= |fmt| && k <= |args| && NUL !in fmt
    ensures Explained(Render(fmt, args, i, k, text), fmt, args, i, k, text, t, items, j)
    decreases |fmt| - i
  {
    var o := Render(fmt, args, i, k, text);
    if i < |fmt| && (fmt[i] != '%' || At(fmt, i + 1) == '%') {
      var c, next := fmt[i], if fmt[i] == '%' then i + 2 else i + 1;
      t, items, j := RenderExplained(fmt, args, next, k, text + [c]);
      OneLiteral(o, fmt, args, i, next, k, text, c, t, items, j);
      t, items := [c] + t, [Literal(c)] + items;
    } else if i < |fmt| && At(fmt, i + 1) == 'f' && k < |args| && Text(args[k]).Rendered? {
      var shown, next := Text(args[k]).text, i + 2;
      t, items, j := RenderExplained(fmt, args, next, k + 1, text + shown);
      OneHole(o, fmt, args, i, next, k, text, shown, t, items, j);
      t, items := shown + t, [Hole] + items;
    } else {
      t, items, j := "", [], i;
      StopsHere(fmt, args, i, k, text);
    }
  }

  /** The format asks for items with a hole for each argument. */
  ghost predicate AsksFor(fmt: string, items: seq<Item>, args: seq<Any>) {
    fmt == FormatOf(items) && Holes(items) == |args|
  }

  lemma AskedIsRendered(fmt: string, items: seq<Item>, args: seq<Any>)
    requires AsksFor(fmt, items, args) && forall k | 0 <= k < |args| :: !args[k].Untyped?
    ensures Render(fmt, args, 0, 0, "").Rendered?
  {
    assert fmt[0..] == fmt;
    FormatIsParsed(fmt, 0, items);
    forall k | 0 <= k < |args| ensures Text(args[k]).Rendered? { TextShows(args[k]); }
    RenderFills(fmt, args, 0, 0, "");
  }

  lemma StopsHere(fmt: string, args: seq<Any>, i: nat, k: nat, text: string)
    requires i <= |fmt| && k <= |args| && NUL !in fmt
    requires i < |fmt| ==> fmt[i] == '%' && At(fmt, i + 1) != '%'
    requires i < |fmt| && At(fmt, i + 1) == 'f' ==> k >= |args| || Text(args[k]).Failed?
    ensures Explained(Render(fmt, args, i, k, text), fmt, args, i, k, text, "", [], i)
  {
    if k < |args| { TextShows(args[k]); }
  }

  /** A format is read back as the items it was written for. */
  lemma {:induction false} FormatIsParsed(fmt: string, i: nat, items: seq<Item>)
    requires i <= |fmt| && fmt[i..] == FormatOf(items)
    ensures Parsed(fmt, i) == Template(items)
    decreases |items|
  {
    if items != [] {
      var rest, n := FormatOf(items[1..]), if items[0] == Hole || items[0].c == '%' then 2 else 1;
      assert fmt[i..][..n] + rest == fmt[i..] && fmt[i..][n..] == fmt[i + n..];
      assert fmt[i] == fmt[i..][0] && (n == 2 ==> fmt[i + 1] == fmt[i..][1]);
      FormatIsParsed(fmt, i + n, items[1..]);
      assert [items[0]] + items[1..] == items;
    }
  }

  lemma OneLiteral(o: Outcome, fmt: string, args: seq<Any>, i: nat, next: nat, k: nat, text: string, c: char,
                   t: string, items: seq<Item>, j: nat)
    requires i < next <= |fmt| && fmt[i..next] == (if c == '%' then "%%" else [c])
    requires Explained(o, fmt, args, next, k, text + [c], t, items, j)
    ensures Explained(o, fmt, args, i, k, text, [c] + t, [Literal(c)] + items, j)
  {
    var more := [Literal(c)] + items;
    assert more[1..] == items && ([c] + t)[1..] == t;
    Sliced(fmt, i, next, j);
    Joined(text, [c], t);
  }

  lemma OneHole(o: Outcome, fmt: string, args: seq<Any>, i: nat, next: nat, k: nat, text: string, shown: string,
                t: string, items: seq<Item>, j: nat)
    requires next == i + 2 <= |fmt| && fmt[i..next] == "%f" && k < |args| && Text(args[k]) == Rendered(shown)
    requires Explained(o, fmt, args, next, k + 1, text + shown, t, items, j)
    ensures Explained(o, fmt, args, i, k, text, shown + t, [Hole] + items, j)
  {
    HoleShows(args, k, shown, t, items);
    Sliced(fmt, i, next, j);
    assert ([Hole] + items)[1..] == items;
    Joined(text, shown, t);
  }

  lemma HoleShows(args: seq<Any>, k: nat, shown: string, t: string, items: seq<Item>)
    requires k < |args| && Text(args[k]) == Rendered(shown) && ShowsItems(t, items, args, k + 1)
    ensures ShowsItems(shown + t, [Hole] + items, args, k)
  {
    var more, all, n := [Hole] + items, shown + t, |shown|;
    TextShows(args[k]);
    assert more[1..] == items && all[..n] == shown && all[n..] == t;
  }

  lemma Sliced(s: string, i: nat, next: nat, j: nat)
    requires i <= next <= j <= |s|
    ensures s[i..j] == s[i..next] + s[next..j]
  {
  }

  lemma Joined(a: string, b: string, c: string)
    ensures a + b + c == a + (b + c)
  {
  }

  /** The %f case: format one argument behind the text so far. */
  method FmtArg(out: Str, arg: Any, ghost b: string, ghost text: string, written: nat) returns (tried: int)
    requires out.Valid() && InRange(arg) && |b| == out.data.Length && written == |text|
    requires out.data[..] == Written(b, out, text)
    modifies out.data
    ensures tried < 0 <==> Text(arg).Failed?
    ensures tried < 0 ==> out.data[..] == Written(b, out, text)
    ensures tried >= 0 ==> tried == |Text(arg).text| && out.data[..] == Written(b, out, text + Text(arg).text)
  {
    var room := if written < out.count then written else out.count;
    tried := FmtAny(out.Suffix(room), arg);
    if tried >= 0 { WrittenTwice(b, out, text, Text(arg).text); }
  }

  /** any__fmt.  Up to position `stop` the format asks for `items`, and `text` shows them; the buffer holds
      as much of it as has room, and nothing else changes.  The result is the length of the text if the
      whole format was used with all arguments, and otherwise tells the argument, one-based and
      negated. */
  method Fmt(out: Str, fmt: string, args: seq<Any>)
    returns (r: int, ghost text: string, ghost items: seq<Item>, ghost stop: nat)
    requires out.Valid() && NUL !in fmt && forall k | 0 <= k < |args| :: InRange(args[k])
    modifies out.data
    ensures forall p | 0 <= p < out.data.Length ::
              out.data[p] == if out.begin <= p < out.begin + out.count && p < out.begin + |text| then text[p - out.begin]
                             else old(out.data[..])[p]
    ensures stop <= |fmt| && fmt[..stop] == FormatOf(items) && ShowsItems(text, items, args, 0)
    ensures r >= 0 ==> stop == |fmt| && Holes(items) == |args| && r == |text|
    ensures r < 0 ==> 0 - r == Holes(items) + 1 && StopsAt(fmt, stop, args, Holes(items))
    ensures (forall k | 0 <= k < |args| :: !args[k].Untyped?) && (exists x: seq<Item> :: AsksFor(fmt, x, args)) ==> r >= 0
  {
    ghost var b := out.data[..];
    r := FmtRender(out, fmt, args);
    text, items, stop := RenderExplained(fmt, args, 0, 0, "");
    WrittenHolds(b, out, text);
    assert fmt[0..stop] == fmt[..stop] && "" + text == text;
    if (forall k | 0 <= k < |args| :: !args[k].Untyped?) && exists x: seq<Item> :: AsksFor(fmt, x, args) {
      ghost var x :| AsksFor(fmt, x, args);
      AskedIsRendered(fmt, x, args);
    }
  }

  /** The truncation law: the result is the length of the unlimited rendering, and the buffer holds
      exactly its prefix; a failure reports the argument, one-based and negated. */
  method FmtRender(out: Str, fmt: string, args: seq<Any>) returns (r: int)
    requires out.Valid() && NUL !in fmt && forall k | 0 <= k < |args| :: InRange(args[k])
    modifies out.data
    ensures out.data[..] == Written(old(out.data[..]), out, Render(fmt, args, 0, 0, "").text)
    ensures match Render(fmt, args, 0, 0, "")
            case Rendered(text) => r == |text|
            case Failed(_, k) => r == 0 - k - 1
  {
    ghost var b, text := out.data[..], "";
    var i, k, written := 0, 0, 0;
    WrittenNothing(b, out);
    while i < |fmt|
      invariant i <= |fmt| && k <= |args| && written == |text| && out.data[..] == Written(b, out, text)
      invariant Render(fmt, args, 0, 0, "") == Render(fmt, args, i, k, text)
    {
      if fmt[i] != '%' {
        Put(out, b, text, written, fmt[i]);
        text, written, i := text + [fmt[i]], written + 1, i + 1;
        continue;
      }
      i := i + 1;
      if At(fmt, i) == '%' {
        Put(out, b, text, written, '%');
        text, written, i := text + "%", written + 1, i + 1;
        continue;
      }
      if At(fmt, i) != 'f' { return 0 - k - 1; }
      i := i + 1;
      if k >= |args| { return 0 - k - 1; }
      var tried := FmtArg(out, args[k], b, text, written);
      if tried < 0 { return 0 - k - 1; }
      text, written, k := text + Text(args[k]).text, written + tried, k + 1;
    }
    if k != |args| { return 0 - k - 1; }
    return written;
  }
}
