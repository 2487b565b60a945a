/**
 * Media-query strings (src/mq.ts). A query is written `:w[A, B]`, `:h[C, D]` or
 * `:w[A, B]:h[C, D]`, where each bound is a breakpoint width resolved to a number. Bounds are
 * integers or +Infinity here; other JS numbers are not modelled.
 */
module MediaQuery {
  import opened Wrappers

  /** A resolved bound. */
  datatype Num = Finite(n: int) | PosInfinity

  /** An argument of a builder: left out, JS null, a number, or a breakpoint name. */
  datatype MQArg = Undefined | Null | Number(value: Num) | Breakpoint(name: string)

  /** The bounds a query string carries, as the hook reads them; a missing bound is undefined. */
  datatype ParsedMq = ParsedMq(minWidth: Option<Num>, maxWidth: Option<Num>, minHeight: Option<Num>, maxHeight: Option<Num>)

  /**
   * Resolves an argument against the registered breakpoints: numbers as they are, null as 0,
   * a name as its breakpoint value or 0 when unknown. An undefined argument is looked up
   * like a name, under the key "undefined" that JS property access converts it to.
   */
  function GetMQValue(value: MQArg, breakpoints: map<string, int>): (r: Num)
    ensures value.Number? ==> r == value.value
    ensures value.Null? ==> r == Finite(0)
    ensures value.Breakpoint? && value.name in breakpoints ==> r == Finite(breakpoints[value.name])
    ensures value.Breakpoint? && value.name !in breakpoints ==> r == Finite(0)
  {
    match value
    case Number(v) => v
    case Null => Finite(0)
    case Breakpoint(name) => if name in breakpoints then Finite(breakpoints[name]) else Finite(0)
    case Undefined => if "undefined" in breakpoints then Finite(breakpoints["undefined"]) else Finite(0)
  }

  /** A JS default parameter: it replaces only an undefined argument (null is kept). */
  function WithDefault(value: MQArg, default: Num): MQArg
  {
    if value.Undefined? then Number(default) else value
  }

  /** The bound of a lower-bound parameter, defaulting to 0. */
  function MinBound(value: MQArg, breakpoints: map<string, int>): Num
  {
    GetMQValue(WithDefault(value, Finite(0)), breakpoints)
  }

  /** The bound of an upper-bound parameter, defaulting to +Infinity. */
  function MaxBound(value: MQArg, breakpoints: map<string, int>): Num
  {
    GetMQValue(WithDefault(value, PosInfinity), breakpoints)
  }

  // ---- Number text, as JS template strings print integers and Infinity ----

  function DigitChar(d: nat): char
    requires d < 10
  {
    (48 + d) as char
  }

  predicate IsDigit(c: char)
  {
    '0' <= c <= '9'
  }

  predicate AllDigits(s: string)
  {
    forall i :: 0 <= i < |s| ==> IsDigit(s[i])
  }

  /** The decimal digits of a natural number, without leading zeros. */
  function NatText(n: nat): (r: string)
    ensures |r| > 0 && AllDigits(r)
  {
    if n < 10 then [DigitChar(n)] else NatText(n / 10) + [DigitChar(n % 10)]
  }

  function NumText(x: Num): string
  {
    match x
    case PosInfinity => "Infinity"
    case Finite(n) => if n < 0 then "-" + NatText(-n) else NatText(n)
  }

  /** One segment of a query, for tag 'w' (width) or 'h' (height). */
  function Segment(tag: char, lo: Num, hi: Num): string
  {
    [':', tag, '['] + NumText(lo) + ", " + NumText(hi) + "]"
  }

  // ---- The builders ----

  /** `mq.only.width(wMin, wMax)`. */
  function OnlyWidth(wMin: MQArg, wMax: MQArg, breakpoints: map<string, int>): (r: string)
    ensures r == Segment('w', MinBound(wMin, breakpoints), MaxBound(wMax, breakpoints))
  {
    ":w[" + NumText(MinBound(wMin, breakpoints)) + ", " + NumText(MaxBound(wMax, breakpoints)) + "]"
  }

  /** `mq.only.height(hMin, hMax)`. */
  function OnlyHeight(hMin: MQArg, hMax: MQArg, breakpoints: map<string, int>): (r: string)
    ensures r == Segment('h', MinBound(hMin, breakpoints), MaxBound(hMax, breakpoints))
  {
    ":h[" + NumText(MinBound(hMin, breakpoints)) + ", " + NumText(MaxBound(hMax, breakpoints)) + "]"
  }

  /** `mq.width(wMin, wMax).and.height(hMin, hMax)`: the width segment, then the height segment. */
  function WidthAndHeight(wMin: MQArg, wMax: MQArg, hMin: MQArg, hMax: MQArg, breakpoints: map<string, int>): (r: string)
    ensures r == OnlyWidth(wMin, wMax, breakpoints) + OnlyHeight(hMin, hMax, breakpoints)
  {
    ":w[" + NumText(MinBound(wMin, breakpoints)) + ", " + NumText(MaxBound(wMax, breakpoints)) + "]"
    + ":h[" + NumText(MinBound(hMin, breakpoints)) + ", " + NumText(MaxBound(hMax, breakpoints)) + "]"
  }

  /** `mq.height(hMin, hMax).and.width(wMin, wMax)`: the same string, width still first. */
  function HeightAndWidth(hMin: MQArg, hMax: MQArg, wMin: MQArg, wMax: MQArg, breakpoints: map<string, int>): (r: string)
    ensures r == WidthAndHeight(wMin, wMax, hMin, hMax, breakpoints)
  {
    ":w[" + NumText(MinBound(wMin, breakpoints)) + ", " + NumText(MaxBound(wMax, breakpoints)) + "]"
    + ":h[" + NumText(MinBound(hMin, breakpoints)) + ", " + NumText(MaxBound(hMax, breakpoints)) + "]"
  }

  // ---- A reader of the format, as reference for what a query string means ----

  function DigitValue(c: char): int
  {
    c as int - 48
  }

  function DigitsValue(s: string): int
  {
    if |s| == 0 then 0 else DigitsValue(s[..|s| - 1]) * 10 + DigitValue(s[|s| - 1])
  }

  function ParseNum(s: string): Option<Num>
  {
    if s == "Infinity" then Some(PosInfinity)
    else if |s| > 1 && s[0] == '-' && AllDigits(s[1..]) then Some(Finite(-DigitsValue(s[1..])))
    else if |s| > 0 && AllDigits(s) then Some(Finite(DigitsValue(s)))
    else None
  }

  /** The first position of `c` in `s`. */
  function IndexOf(s: string, c: char): (r: Option<nat>)
    ensures r.None? <==> c !in s
    ensures r.Some? ==> r.value < |s| && s[r.value] == c && c !in s[..r.value]
  {
    if |s| == 0 then None
    else if s[0] == c then Some(0)
    else
      match IndexOf(s[1..], c)
      case None => None
      case Some(i) =>
        assert s[..i + 1] == [s[0]] + s[1..][..i];
        Some(i + 1)
  }

  /** Reads one `:<tag>[lo, hi]` segment at the start of `s`, returning its bounds and the rest. */
  function ParseSegment(s: string, tag: char): Option<(Num, Num, string)>
  {
    if |s| < 3 || s[0] != ':' || s[1] != tag || s[2] != '[' then None
    else ParseBounds(s[3..])
  }

  /** Reads `lo, hi]` and returns both bounds and what follows the bracket. */
  function ParseBounds(body: string): Option<(Num, Num, string)>
  {
    match IndexOf(body, ',')
    case None => None
    case Some(c) =>
      if c + 1 >= |body| || body[c + 1] != ' ' then None
      else
        match (ParseNum(body[..c]), ParseUpper(body[c + 2..]))
        case (Some(lo), Some((hi, rest))) => Some((lo, hi, rest))
        case _ => None
  }

  /** Reads `hi]` and returns the bound and what follows the bracket. */
  function ParseUpper(s: string): Option<(Num, string)>
  {
    match IndexOf(s, ']')
    case None => None
    case Some(k) =>
      match ParseNum(s[..k])
      case Some(hi) => Some((hi, s[k + 1..]))
      case None => None
  }

  /** The bounds of a query string: a width segment, a height segment, or width then height. */
  function DecodeMq(s: string): Option<ParsedMq>
  {
    match ParseSegment(s, 'w')
    case Some((wMin, wMax, rest)) =>
      if rest == [] then Some(ParsedMq(Some(wMin), Some(wMax), None, None))
      else (
        match ParseSegment(rest, 'h')
        case Some((hMin, hMax, tail)) =>
          if tail == [] then Some(ParsedMq(Some(wMin), Some(wMax), Some(hMin), Some(hMax))) else None
        case None => None)
    case None =>
      match ParseSegment(s, 'h')
      case Some((hMin, hMax, rest)) =>
        if rest == [] then Some(ParsedMq(None, None, Some(hMin), Some(hMax))) else None
      case None => None
  }

  // ---- Properties ----

  /** The digits read back to the number they were printed from. */
  lemma {:induction false} NatTextRoundTrip(n: nat)
    ensures DigitsValue(NatText(n)) == n
    decreases n
  {
    if n < 10 {
      assert NatText(n)[..0] == [];
    } else {
      NatTextRoundTrip(n / 10);
      var s := NatText(n);
      assert s[..|s| - 1] == NatText(n / 10);
    }
  }

  /** A bound prints to text that reads back to it. */
  lemma NumTextRoundTrip(x: Num)
    ensures ParseNum(NumText(x)) == Some(x)
  {
    if x.Finite? {
      if x.n < 0 {
        NatTextRoundTrip(-x.n);
        var s := NumText(x);
        assert s[1..] == NatText(-x.n);
        assert s != "Infinity" by { assert s[0] == '-'; }
      } else {
        NatTextRoundTrip(x.n);
        var s := NumText(x);
        assert s != "Infinity" by { assert IsDigit(s[0]); }
        assert !(|s| > 1 && s[0] == '-') by { assert IsDigit(s[0]); }
      }
    }
  }

  /** A bound's text holds neither of the delimiters ',' and ']'. */
  lemma NumTextHasNoDelimiters(x: Num)
    ensures ',' !in NumText(x) && ']' !in NumText(x)
  {
    var s := NumText(x);
    if x.Finite? && x.n < 0 {
      assert s == "-" + NatText(-x.n);
      assert forall i :: 1 <= i < |s| ==> IsDigit(s[i]) by {
        forall i | 1 <= i < |s| ensures IsDigit(s[i]) {
          assert s[i] == NatText(-x.n)[i - 1];
        }
      }
    }
  }

  /** The first `c` in `a + b` is the one that starts `b` when `a` has none. */
  lemma {:induction false} IndexOfAfter(a: string, b: string, c: char)
    requires c !in a && |b| > 0 && b[0] == c
    ensures IndexOf(a + b, c) == Some(|a|)
    decreases |a|
  {
    if |a| == 0 {
      assert a + b == b;
    } else {
      assert (a + b)[1..] == a[1..] + b;
      IndexOfAfter(a[1..], b, c);
    }
  }

  /** The upper bound text is found before the first closing bracket. */
  lemma ParseUpperOf(hiText: string, rest: string)
    requires ']' !in hiText && ParseNum(hiText).Some?
    ensures ParseUpper(hiText + ("]" + rest)) == Some((ParseNum(hiText).value, rest))
  {
    var s := hiText + ("]" + rest);
    IndexOfAfter(hiText, "]" + rest, ']');
    assert s[..|hiText|] == hiText;
    assert s[|hiText| + 1..] == rest;
  }

  /** Both bound texts are found around the first comma. */
  lemma ParseBoundsOf(loText: string, hiText: string, rest: string)
    requires ',' !in loText && ']' !in hiText
    requires ParseNum(loText).Some? && ParseNum(hiText).Some?
    ensures ParseBounds(loText + (", " + (hiText + ("]" + rest))))
      == Some((ParseNum(loText).value, ParseNum(hiText).value, rest))
  {
    var tail := hiText + ("]" + rest);
    var body := loText + (", " + tail);
    IndexOfAfter(loText, ", " + tail, ',');
    assert body[..|loText|] == loText;
    assert body[|loText| + 1] == ' ';
    assert body[|loText| + 2..] == tail;
    ParseUpperOf(hiText, rest);
  }

  /** Reading a segment built from delimiter-free bound texts finds those texts and the rest. */
  lemma ParseSegmentPieces(tag: char, loText: string, hiText: string, rest: string)
    requires ',' !in loText && ']' !in hiText
    requires ParseNum(loText).Some? && ParseNum(hiText).Some?
    ensures ParseSegment([':', tag, '['] + (loText + (", " + (hiText + ("]" + rest)))), tag)
      == Some((ParseNum(loText).value, ParseNum(hiText).value, rest))
  {
    var body := loText + (", " + (hiText + ("]" + rest)));
    assert ([':', tag, '['] + body)[3..] == body;
    ParseBoundsOf(loText, hiText, rest);
  }

  /** Reading a printed segment gives back its bounds and leaves what followed it. */
  lemma SegmentRoundTrip(tag: char, lo: Num, hi: Num, rest: string)
    ensures ParseSegment(Segment(tag, lo, hi) + rest, tag) == Some((lo, hi, rest))
  {
    var loText, hiText := NumText(lo), NumText(hi);
    NumTextHasNoDelimiters(lo);
    NumTextHasNoDelimiters(hi);
    NumTextRoundTrip(lo);
    NumTextRoundTrip(hi);
    assert Segment(tag, lo, hi) + rest == [':', tag, '['] + (loText + (", " + (hiText + ("]" + rest))));
    ParseSegmentPieces(tag, loText, hiText, rest);
  }

  /** A string that is exactly one width segment decodes to width bounds only. */
  lemma DecodeWidthOnly(s: string, lo: Num, hi: Num)
    requires ParseSegment(s, 'w') == Some((lo, hi, []))
    ensures DecodeMq(s) == Some(ParsedMq(Some(lo), Some(hi), None, None))
  {
  }

  /** A string that is exactly one height segment decodes to height bounds only. */
  lemma DecodeHeightOnly(s: string, lo: Num, hi: Num)
    requires ParseSegment(s, 'h') == Some((lo, hi, []))
    ensures DecodeMq(s) == Some(ParsedMq(None, None, Some(lo), Some(hi)))
  {
    assert s[1] == 'h';
  }

  /** A width segment followed by exactly one height segment decodes to all four bounds. */
  lemma DecodeWidthThenHeight(s: string, wLo: Num, wHi: Num, rest: string, hLo: Num, hHi: Num)
    requires ParseSegment(s, 'w') == Some((wLo, wHi, rest))
    requires ParseSegment(rest, 'h') == Some((hLo, hHi, []))
    ensures DecodeMq(s) == Some(ParsedMq(Some(wLo), Some(wHi), Some(hLo), Some(hHi)))
  {
    assert rest != [];
  }

  /** `only.width` strings read back as width bounds with no height bounds. */
  lemma OnlyWidthRoundTrip(wMin: MQArg, wMax: MQArg, breakpoints: map<string, int>)
    ensures DecodeMq(OnlyWidth(wMin, wMax, breakpoints))
      == Some(ParsedMq(Some(MinBound(wMin, breakpoints)), Some(MaxBound(wMax, breakpoints)), None, None))
  {
    var lo, hi := MinBound(wMin, breakpoints), MaxBound(wMax, breakpoints);
    var s := Segment('w', lo, hi);
    assert s + [] == s;
    SegmentRoundTrip('w', lo, hi, []);
    DecodeWidthOnly(s, lo, hi);
  }

  /** `only.height` strings read back as height bounds with no width bounds. */
  lemma OnlyHeightRoundTrip(hMin: MQArg, hMax: MQArg, breakpoints: map<string, int>)
    ensures DecodeMq(OnlyHeight(hMin, hMax, breakpoints))
      == Some(ParsedMq(None, None, Some(MinBound(hMin, breakpoints)), Some(MaxBound(hMax, breakpoints))))
  {
    var lo, hi := MinBound(hMin, breakpoints), MaxBound(hMax, breakpoints);
    var s := Segment('h', lo, hi);
    assert s + [] == s;
    SegmentRoundTrip('h', lo, hi, []);
    DecodeHeightOnly(s, lo, hi);
  }

  /** Combined strings read back as all four bounds. */
  lemma WidthAndHeightRoundTrip(wMin: MQArg, wMax: MQArg, hMin: MQArg, hMax: MQArg, breakpoints: map<string, int>)
    ensures DecodeMq(WidthAndHeight(wMin, wMax, hMin, hMax, breakpoints))
      == Some(ParsedMq(Some(MinBound(wMin, breakpoints)), Some(MaxBound(wMax, breakpoints)),
                       Some(MinBound(hMin, breakpoints)), Some(MaxBound(hMax, breakpoints))))
  {
    var wLo, wHi := MinBound(wMin, breakpoints), MaxBound(wMax, breakpoints);
    var hLo, hHi := MinBound(hMin, breakpoints), MaxBound(hMax, breakpoints);
    var h := Segment('h', hLo, hHi);
    assert h + [] == h;
    SegmentRoundTrip('w', wLo, wHi, h);
    SegmentRoundTrip('h', hLo, hHi, []);
    DecodeWidthThenHeight(Segment('w', wLo, wHi) + h, wLo, wHi, h, hLo, hHi);
  }

  /** With no arguments, `only.width` spans from 0 to +Infinity. */
  lemma OnlyWidthDefaults(breakpoints: map<string, int>)
    ensures OnlyWidth(Undefined, Undefined, breakpoints) == ":w[0, Infinity]"
  {
  }

  /** With no arguments, `only.height` spans from 0 to +Infinity. */
  lemma OnlyHeightDefaults(breakpoints: map<string, int>)
    ensures OnlyHeight(Undefined, Undefined, breakpoints) == ":h[0, Infinity]"
  {
  }
}
