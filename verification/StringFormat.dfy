/**
  * The positional formatter of src/lib/base/String.cpp. A format is the contents of a C
  * string: the terminating null is where the sequence ends.
  */
module StringFormat {

  // ------------------------------------------------------------- strtol, base 10

  predicate IsSpace(c: char) {
    c == ' ' || '\t' <= c <= '\r'
  }

  predicate IsDigit(c: char) {
    '0' <= c <= '9'
  }

  function SpacesEnd(s: string, at: nat): (end: nat)
    requires at <= |s|
    ensures at <= end <= |s| && forall k :: at <= k < end ==> IsSpace(s[k])
    ensures end < |s| ==> !IsSpace(s[end])
    decreases |s| - at
  {
    if at < |s| && IsSpace(s[at]) then SpacesEnd(s, at + 1) else at
  }

  function DigitsEnd(s: string, at: nat): (end: nat)
    requires at <= |s|
    ensures at <= end <= |s| && forall k :: at <= k < end ==> IsDigit(s[k])
    ensures end < |s| ==> !IsDigit(s[end])
    decreases |s| - at
  {
    if at < |s| && IsDigit(s[at]) then DigitsEnd(s, at + 1) else at
  }

  function Number(digits: string): nat
    requires forall k :: 0 <= k < |digits| ==> IsDigit(digits[k])
  {
    if digits == "" then 0
    else
      var last := digits[|digits| - 1];
      assert IsDigit(last);
      10 * Number(digits[..|digits| - 1]) + (last as int - '0' as int)
  }

  const LONG_MAX: int := 0x7FFF_FFFF_FFFF_FFFF

  /** `end` is the position after the number, or where the call began when there are no
    * digits; `outOfRange` is ERANGE. */
  datatype Parsed = Parsed(value: int, end: nat, outOfRange: bool)

  function StrToL(s: string, at: nat): (p: Parsed)
    requires at <= |s|
    ensures at <= p.end <= |s| && forall k :: at <= k < p.end ==> s[k] != '%'
  {
    var sign := SpacesEnd(s, at);
    var first := if sign < |s| && (s[sign] == '+' || s[sign] == '-') then sign + 1 else sign;
    var end := DigitsEnd(s, first);
    if end == first then Parsed(0, at, false)
    else
      var n := (if s[sign] == '-' then -1 else 1) * Number(s[first..end]);
      if n > LONG_MAX then Parsed(LONG_MAX, end, true)
      else if n < -LONG_MAX - 1 then Parsed(-LONG_MAX - 1, end, true)
      else Parsed(n, end, false)
  }

  // ------------------------------------------------------------------- reference

  /** The text of element `i`; 0 stands for a literal per cent sign. */
  function Value(args: seq<string>, i: nat): string {
    if i == 0 then "%" else if i <= |args| then args[i - 1] else ""
  }

  /** Does a well-formed element begin at the per cent sign at `at`? Its index and its end. */
  datatype Element = NoElement | Element(index: nat, end: nat)

  function ElementAt(fmt: string, at: nat): (e: Element)
    requires at < |fmt|
    ensures e.Element? ==> at + 2 <= e.end <= |fmt|
  {
    if fmt[at] != '%' || at + 1 == |fmt| then NoElement
    else if fmt[at + 1] == '%' then Element(0, at + 2)
    else if fmt[at + 1] == '{' then
      var p := StrToL(fmt, at + 2);
      if !p.outOfRange && p.value >= 0 && p.end < |fmt| && fmt[p.end] == '}' then Element(p.value, p.end + 1)
      else NoElement
    else NoElement
  }

  /** What formatting means: elements are replaced from left to right and every
    * other character is copied. */
  function Subst(fmt: string, at: nat, args: seq<string>): string
    requires at <= |fmt|
    decreases |fmt| - at
  {
    if at == |fmt| then ""
    else
      var e := ElementAt(fmt, at);
      if e.Element? then Value(args, e.index) + Subst(fmt, e.end, args)
      else [fmt[at]] + Subst(fmt, at + 1, args)
  }

  // ----------------------------------------------------------------------- spans

  /** A stretch of the format to be replaced by an element. */
  datatype Span = Span(pos: nat, width: nat, index: nat) {
    function End(): nat {
      pos + width
    }
  }

  function Spans(fmt: string, at: nat): seq<Span>
    requires at <= |fmt|
    decreases |fmt| - at
  {
    if at == |fmt| then []
    else
      var e := ElementAt(fmt, at);
      if e.Element? then [Span(at, e.end - at, e.index)] + Spans(fmt, e.end)
      else Spans(fmt, at + 1)
  }

  ghost predicate Increasing(spans: seq<Span>, from: nat, to: nat) {
    && (forall i :: 0 <= i < |spans| ==> from <= spans[i].pos && spans[i].End() <= to)
    && (forall i, j :: 0 <= i < j < |spans| ==> spans[i].End() <= spans[j].pos)
  }

  lemma {:induction false} SpansIncrease(fmt: string, at: nat)
    requires at <= |fmt|
    ensures Increasing(Spans(fmt, at), at, |fmt|)
    decreases |fmt| - at
  {
    hide ElementAt;
    if at < |fmt| {
      var e := ElementAt(fmt, at);
      SpansIncrease(fmt, if e.Element? then e.end else at + 1);
    }
  }

  /** Text without a per cent sign has no spans. */
  lemma {:induction false} PlainText(fmt: string, at: nat, to: nat)
    requires at <= to <= |fmt| && forall k :: at <= k < to ==> fmt[k] != '%'
    ensures Spans(fmt, at) == Spans(fmt, to)
    decreases |fmt| - at
  {
    if at < to {
      PlainText(fmt, at + 1, to);
    }
  }

  /** The format from `src` on, with the spans replaced. */
  function Filled(fmt: string, src: nat, spans: seq<Span>, args: seq<string>): string
    requires src <= |fmt| && Increasing(spans, src, |fmt|)
    decreases |spans|
  {
    if spans == [] then fmt[src..]
    else fmt[src..spans[0].pos] + Value(args, spans[0].index) + Filled(fmt, spans[0].End(), spans[1..], args)
  }

  /** Filling the spans in is the substitution. */
  lemma {:induction false} FilledIsSubst(fmt: string, at: nat, args: seq<string>)
    requires at <= |fmt|
    ensures Increasing(Spans(fmt, at), at, |fmt|)
    ensures Filled(fmt, at, Spans(fmt, at), args) == Subst(fmt, at, args)
    decreases |fmt| - at
  {
    hide ElementAt, Value, Filled, Increasing;
    SpansIncrease(fmt, at);
    FilledParts(fmt, at, Spans(fmt, at), args);
    if at < |fmt| {
      var e := ElementAt(fmt, at);
      if e.Element? {
        FilledIsSubst(fmt, e.end, args);
        assert Spans(fmt, at)[1..] == Spans(fmt, e.end);
      } else {
        SpansIncrease(fmt, at + 1);
        FilledIsSubst(fmt, at + 1, args);
        FilledShift(fmt, at, Spans(fmt, at + 1), args);
      }
    }
  }

  lemma FilledShift(fmt: string, at: nat, spans: seq<Span>, args: seq<string>)
    requires at < |fmt| && Increasing(spans, at + 1, |fmt|)
    ensures Increasing(spans, at, |fmt|)
    ensures Filled(fmt, at, spans, args) == [fmt[at]] + Filled(fmt, at + 1, spans, args)
  {
    hide Value, Filled;
    FilledParts(fmt, at, spans, args);
    FilledParts(fmt, at + 1, spans, args);
    if spans == [] {
      assert fmt[at..] == [fmt[at]] + fmt[at + 1..];
    } else {
      var pos := spans[0].pos;
      assert fmt[at..pos] == [fmt[at]] + fmt[at + 1..pos];
      Associative([fmt[at]], fmt[at + 1..pos], FilledFrom(fmt, spans, args));
    }
  }

  lemma Associative(a: string, b: string, c: string)
    ensures (a + b) + c == a + (b + c)
  {
  }

  /** The first element and what follows it. */
  function FilledFrom(fmt: string, spans: seq<Span>, args: seq<string>): string
    requires spans != [] && spans[0].End() <= |fmt| && Increasing(spans[1..], spans[0].End(), |fmt|)
  {
    Value(args, spans[0].index) + Filled(fmt, spans[0].End(), spans[1..], args)
  }

  lemma FilledParts(fmt: string, src: nat, spans: seq<Span>, args: seq<string>)
    requires src <= |fmt| && Increasing(spans, src, |fmt|)
    ensures spans == [] ==> Filled(fmt, src, spans, args) == fmt[src..]
    ensures spans != [] ==>
      && src <= spans[0].pos && spans[0].End() <= |fmt| && Increasing(spans[1..], spans[0].End(), |fmt|)
      && Filled(fmt, src, spans, args) == fmt[src..spans[0].pos] + FilledFrom(fmt, spans, args)
  {
    hide Value;
    if spans != [] {
      Associative(fmt[src..spans[0].pos], Value(args, spans[0].index), Filled(fmt, spans[0].End(), spans[1..], args));
    }
  }

  /** How much longer the spans make the result. */
  function Growth(spans: seq<Span>, args: seq<string>): int {
    if spans == [] then 0
    else |Value(args, spans[0].index)| - spans[0].width + Growth(spans[1..], args)
  }

  lemma {:induction false} FilledLength(fmt: string, src: nat, spans: seq<Span>, args: seq<string>)
    requires src <= |fmt| && Increasing(spans, src, |fmt|)
    ensures |Filled(fmt, src, spans, args)| == |fmt| - src + Growth(spans, args)
    decreases |spans|
  {
    if spans != [] {
      FilledLength(fmt, spans[0].End(), spans[1..], args);
    }
  }

  function MaxIndex(spans: seq<Span>): (m: nat)
    ensures forall i :: 0 <= i < |spans| ==> spans[i].index <= m
    ensures m > 0 ==> exists i :: 0 <= i < |spans| && spans[i].index == m
  {
    if spans == [] then 0
    else
      var last, m := spans[|spans| - 1].index, MaxIndex(spans[..|spans| - 1]);
      if last > m then last else m
  }

  // -------------------------------------------------------------------- vformat

  /** What is found at `at`, and where the search goes on: an element that is no good is left
    * by jumping over all that `strtol` has read. */
  lemma Turn(fmt: string, at: nat)
    requires at < |fmt|
    ensures Spans(fmt, |fmt|) == []
    ensures fmt[at] != '%' || at + 1 == |fmt| ==> Spans(fmt, at) == Spans(fmt, at + 1)
    ensures fmt[at] == '%' && at + 1 < |fmt| ==>
      if fmt[at + 1] == '%' then Spans(fmt, at) == [Span(at, 2, 0)] + Spans(fmt, at + 2)
      else if fmt[at + 1] == '{' then
        var p := StrToL(fmt, at + 2);
        if p.outOfRange || p.value < 0 || p.end == |fmt| || fmt[p.end] != '}' then Spans(fmt, at) == Spans(fmt, p.end)
        else Spans(fmt, at) == [Span(at, p.end + 1 - at, p.value)] + Spans(fmt, p.end + 1)
      else Spans(fmt, at) == Spans(fmt, at + 2)
  {
    hide StrToL;
    if fmt[at] == '%' && at + 1 < |fmt| {
      if fmt[at + 1] == '{' {
        PlainText(fmt, at + 1, StrToL(fmt, at + 2).end);
      } else if fmt[at + 1] != '%' {
        PlainText(fmt, at + 1, at + 2);
      }
    }
  }

  lemma MaxIndexStep(spans: seq<Span>, s: Span)
    ensures MaxIndex(spans + [s]) == if s.index > MaxIndex(spans) then s.index else MaxIndex(spans)
  {
    assert (spans + [s])[..|spans|] == spans;
  }

  /** The first loop of `vformat`. */
  method FindSpans(fmt: string) returns (spans: seq<Span>, maxIndex: nat)
    ensures spans == Spans(fmt, 0) && Increasing(spans, 0, |fmt|)
    ensures maxIndex == MaxIndex(spans)
  {
    hide StrToL, Increasing, Spans, ElementAt, MaxIndex;
    SpansIncrease(fmt, 0);
    spans, maxIndex := [], 0;
    NoSpans(fmt);
    var scan := 0;
    while scan < |fmt|
      invariant 0 <= scan <= |fmt|
      invariant spans + Spans(fmt, scan) == Spans(fmt, 0)
      invariant maxIndex == MaxIndex(spans)
    {
      Turn(fmt, scan);
      if fmt[scan] == '%' {
        scan := scan + 1;
        if scan == |fmt| {
          break;
        } else if fmt[scan] == '%' {
          MaxIndexStep(spans, Span(scan - 1, 2, 0));
          spans := spans + [Span(scan - 1, 2, 0)];
        } else if fmt[scan] == '{' {
          var p := StrToL(fmt, scan + 1);
          if p.outOfRange || p.value < 0 || p.end == |fmt| || fmt[p.end] != '}' {
            scan := p.end - 1;
          } else {
            MaxIndexStep(spans, Span(scan - 1, p.end - scan + 2, p.value));
            spans := spans + [Span(scan - 1, p.end - scan + 2, p.value)];
            if p.value > maxIndex {
              maxIndex := p.value;
            }
            scan := p.end;
          }
        }
      }
      scan := scan + 1;
    }
  }

  lemma NoSpans(fmt: string)
    ensures Spans(fmt, |fmt|) == [] && MaxIndex([]) == 0
  {
  }

  /** `vformat`: the arguments are all there is on the list, at least up to the highest index. */
  method VFormat(fmt: string, args: seq<string>) returns (result: string)
    requires MaxIndex(Spans(fmt, 0)) <= |args|
    ensures result == Subst(fmt, 0, args)
  {
    hide Spans, Subst, MaxIndex, Increasing;
    var spans, maxIndex := FindSpans(fmt);

    // the arguments
    var value := ["%"];
    var k := 0;
    while k < maxIndex
      invariant 0 <= k <= maxIndex && |value| == k + 1
      invariant forall i :: 0 <= i <= k ==> value[i] == Value(args, i)
    {
      value := value + [args[k]];
      k := k + 1;
    }
    IndicesFit(spans);

    var resultLength := ResultLength(fmt, spans, value, args);

    result := Substitute(fmt, spans, value, args);
    FilledIsSubst(fmt, 0, args);
    FilledLength(fmt, 0, spans, args);
    assert resultLength == |result|;
  }

  /** `value` holds the text of every element used. */
  ghost predicate ValuesFit(spans: seq<Span>, value: seq<string>, args: seq<string>) {
    forall i :: 0 <= i < |spans| ==> spans[i].index < |value| && value[spans[i].index] == Value(args, spans[i].index)
  }

  method Substitute(fmt: string, spans: seq<Span>, value: seq<string>, ghost args: seq<string>) returns (result: string)
    requires Increasing(spans, 0, |fmt|)
    requires ValuesFit(spans, value, args)
    ensures result == Filled(fmt, 0, spans, args)
  {
    hide Increasing, Value, Filled;
    result := "";
    var src, i := 0, 0;
    FilledParts(fmt, 0, spans, args);
    assert spans[0..] == spans;
    while i < |spans|
      invariant 0 <= i <= |spans| && 0 <= src <= |fmt|
      invariant Increasing(spans[i..], src, |fmt|)
      invariant result + Filled(fmt, src, spans[i..], args) == Filled(fmt, 0, spans, args)
    {
      FilledParts(fmt, src, spans[i..], args);
      assert spans[i..][1..] == spans[i + 1..];
      result := result + fmt[src..spans[i].pos];
      result := result + value[spans[i].index];
      src := spans[i].End();
      i := i + 1;
    }
    FilledParts(fmt, src, spans[i..], args);
    result := result + fmt[src..];
  }

  /** The length computed before anything is copied never falls below zero and is exact. */
  method ResultLength(fmt: string, spans: seq<Span>, value: seq<string>, ghost args: seq<string>)
    returns (resultLength: nat)
    requires Increasing(spans, 0, |fmt|)
    requires ValuesFit(spans, value, args)
    ensures resultLength == |fmt| + Growth(spans, args)
  {
    resultLength := |fmt|;
    ghost var src := 0;
    var i := 0;
    while i < |spans|
      invariant 0 <= i <= |spans| && 0 <= src <= |fmt|
      invariant Increasing(spans[i..], src, |fmt|)
      invariant resultLength >= |fmt| - src
      invariant resultLength + Growth(spans[i..], args) == |fmt| + Growth(spans, args)
    {
      assert spans[i..][0] == spans[i] && spans[i..][1..] == spans[i + 1..];
      resultLength := resultLength - spans[i].width;
      resultLength := resultLength + |value[spans[i].index]|;
      src := spans[i].End();
      i := i + 1;
    }
  }

  lemma IndicesFit(spans: seq<Span>)
    ensures forall i :: 0 <= i < |spans| ==> spans[i].index <= MaxIndex(spans)
  {
  }

  // -------------------------------------------------------------------- escaping

  function Escape(s: string): string {
    if s == "" then "" else (if s[0] == '%' then "%%" else [s[0]]) + Escape(s[1..])
  }

  /** Any text, its per cent signs doubled, comes out as it was, whatever the arguments. */
  lemma {:induction false} EscapedIsLiteral(before: string, s: string, args: seq<string>)
    ensures Subst(before + Escape(s), |before|, args) == s
    decreases |s|
  {
    hide StrToL;
    if s != "" {
      var e := if s[0] == '%' then "%%" else [s[0]];
      assert before + e + Escape(s[1..]) == before + Escape(s);
      EscapedIsLiteral(before + e, s[1..], args);
    }
  }

  // ------------------------------------------------- elements as they are documented

  /** The first closing brace from `at` on, or the end of the format. */
  function Close(fmt: string, at: nat): (c: nat)
    requires at <= |fmt|
    ensures at <= c <= |fmt| && (c < |fmt| ==> fmt[c] == '}')
    ensures forall k :: at <= k < c ==> fmt[k] != '}'
    decreases |fmt| - at
  {
    if at < |fmt| && fmt[at] != '}' then Close(fmt, at + 1) else at
  }

  predicate AllDigits(u: string) {
    forall k :: 0 <= k < |u| ==> IsDigit(u[k])
  }

  /** A positive integer, as the documentation asks for. */
  predicate IsPositive(u: string) {
    u != "" && AllDigits(u) && Number(u) >= 1
  }

  predicate OpensIndex(fmt: string, at: nat)
    requires at < |fmt|
  {
    fmt[at] == '%' && at + 1 < |fmt| && fmt[at + 1] == '{'
  }

  function Documented(fmt: string, at: nat): Element
    requires at < |fmt|
  {
    if OpensIndex(fmt, at) then
      var c := Close(fmt, at + 2);
      var u := fmt[at + 2..c];
      if c < |fmt| && IsPositive(u) then Element(Number(u), c + 1) else NoElement
    else if fmt[at] == '%' && at + 1 < |fmt| && fmt[at + 1] == '%' then Element(0, at + 2)
    else NoElement
  }

  function Trimmed(u: string): string {
    if u != "" && IsSpace(u[0]) then Trimmed(u[1..]) else u
  }

  /** The text between the braces without leading white space and one sign. */
  function Unsigned(u: string): string {
    var t := Trimmed(u);
    if t != "" && (t[0] == '+' || t[0] == '-') then t[1..] else t
  }

  predicate Negative(u: string) {
    Trimmed(u) != "" && Trimmed(u)[0] == '-'
  }

  /** What `strtol` reads as an index: white space and a sign may come first. */
  predicate LooseIndex(u: string) {
    var d := Unsigned(u);
    d != "" && AllDigits(d) && Number(d) <= LONG_MAX && (Negative(u) ==> Number(d) == 0)
  }

  /** Between braces: a positive integer that fits a long is what it should be; nothing, zero, an
    * index that needs the leniency of `strtol` and one that is too large are not. */
  predicate ReadAsDocumented(u: string) {
    u != "" && if AllDigits(u) then 1 <= Number(u) <= LONG_MAX else !LooseIndex(u)
  }

  /** At every place of every format, the element the code finds is the documented one if and only
    * if it is not an index between braces that the code reads otherwise. */
  lemma ElementIsDocumentedIff(fmt: string, at: nat)
    requires at < |fmt|
    ensures ElementAt(fmt, at) == Documented(fmt, at) <==>
      !OpensIndex(fmt, at) || Close(fmt, at + 2) == |fmt| || ReadAsDocumented(fmt[at + 2..Close(fmt, at + 2)])
  {
    hide StrToL, LooseIndex;
    if OpensIndex(fmt, at) {
      var c := Close(fmt, at + 2);
      if c < |fmt| {
        var u := fmt[at + 2..c];
        ElementBetween(fmt, at, c);
        if u != "" && AllDigits(u) {
          DigitsAreLoose(u);
        }
      }
    }
  }

  lemma DigitsAreLoose(u: string)
    requires u != "" && AllDigits(u)
    ensures Unsigned(u) == u && !Negative(u) && (LooseIndex(u) <==> Number(u) <= LONG_MAX)
  {
    assert IsDigit(u[0]);
  }

  lemma {:induction false} SpacesAreTrimmed(fmt: string, s: nat, c: nat)
    requires s <= c < |fmt| && fmt[c] == '}'
    ensures SpacesEnd(fmt, s) <= c && fmt[SpacesEnd(fmt, s)..c] == Trimmed(fmt[s..c])
    decreases c - s
  {
    if s < c && IsSpace(fmt[s]) {
      SpacesAreTrimmed(fmt, s + 1, c);
      assert fmt[s..c][1..] == fmt[s + 1..c];
    }
  }

  lemma {:induction false} DigitsToBrace(fmt: string, s: nat, c: nat)
    requires s <= c < |fmt| && fmt[c] == '}'
    ensures DigitsEnd(fmt, s) <= c
    ensures DigitsEnd(fmt, s) == c <==> AllDigits(fmt[s..c])
    decreases c - s
  {
    if s < c {
      var u := fmt[s..c];
      assert u == [fmt[s]] + fmt[s + 1..c];
      if IsDigit(fmt[s]) {
        DigitsToBrace(fmt, s + 1, c);
      } else {
        assert !IsDigit(u[0]);
      }
    }
  }

  /** Where the digits begin, and that they reach the brace when there is nothing else. */
  lemma NumberBetween(fmt: string, s: nat, c: nat) returns (first: nat)
    requires s <= c < |fmt| && fmt[c] == '}'
    ensures var sign := SpacesEnd(fmt, s);
      && sign <= c && sign <= first <= c
      && first == (if fmt[sign] == '+' || fmt[sign] == '-' then sign + 1 else sign)
      && (fmt[sign] == '-' <==> Negative(fmt[s..c]))
    ensures fmt[first..c] == Unsigned(fmt[s..c])
    ensures DigitsEnd(fmt, first) <= c && (DigitsEnd(fmt, first) == c <==> AllDigits(Unsigned(fmt[s..c])))
  {
    hide SpacesEnd, DigitsEnd, AllDigits, Trimmed;
    SpacesAreTrimmed(fmt, s, c);
    var sign := SpacesEnd(fmt, s);
    first := if fmt[sign] == '+' || fmt[sign] == '-' then sign + 1 else sign;
    DigitsToBrace(fmt, first, c);
    assert fmt[sign..c] == "" || fmt[sign..c][1..] == fmt[sign + 1..c];
  }

  /** What `strtol` makes of the text between the braces. */
  lemma StrToLBetween(fmt: string, s: nat, c: nat)
    requires s <= c < |fmt| && fmt[c] == '}' && forall k :: s <= k < c ==> fmt[k] != '}'
    ensures var u, p := fmt[s..c], StrToL(fmt, s);
      var d := Unsigned(u);
      && (fmt[p.end] == '}' <==> u == "" || (d != "" && AllDigits(d)))
      && p.end <= c && (u == "" ==> p == Parsed(0, c, false))
      && (d != "" && AllDigits(d) ==>
           && p.end == c
           && (!p.outOfRange && p.value >= 0 <==> Number(d) <= LONG_MAX && (Negative(u) ==> Number(d) == 0))
           && (!p.outOfRange && p.value >= 0 ==> p.value == Number(d)))
  {
    hide SpacesEnd, DigitsEnd, Number, AllDigits, Unsigned, Negative;
    var first := NumberBetween(fmt, s, c);
    NothingTrimmed();
  }

  /** The element the code finds, in terms of the text between the braces. */
  lemma ElementBetween(fmt: string, at: nat, c: nat)
    requires at < |fmt| && OpensIndex(fmt, at) && c == Close(fmt, at + 2) < |fmt|
    ensures var u := fmt[at + 2..c];
      ElementAt(fmt, at) ==
        if u == "" then Element(0, c + 1)
        else if LooseIndex(u) then Element(Number(Unsigned(u)), c + 1)
        else NoElement
  {
    hide StrToL, Number, AllDigits, Unsigned, Negative;
    StrToLBetween(fmt, at + 2, c);
    NothingTrimmed();
  }

  lemma NothingTrimmed()
    ensures Trimmed("") == "" && Unsigned("") == "" && !Negative("")
  {
  }

  /** The same for a format that is one index. */
  lemma Braced(u: string)
    requires '}' !in u
    ensures ElementAt("%{" + u + "}", 0) ==
      if u == "" then Element(0, 3)
      else if LooseIndex(u) then Element(Number(Unsigned(u)), |u| + 3)
      else NoElement
  {
    hide ElementAt, LooseIndex, Unsigned, Number;
    var fmt := "%{" + u + "}";
    assert fmt[2..|u| + 2] == u && fmt[|u| + 2] == '}';
    assert forall k :: 2 <= k < |u| + 2 ==> fmt[k] == u[k - 2];
    ElementBetween(fmt, 0, Close(fmt, 2));
  }

  /** Indexes that are not documented: nothing, zero and minus zero stand for a per cent sign,
    * and a blank or a plus sign does not matter. */
  lemma LooseIndexes()
    ensures ElementAt("%{" + "" + "}", 0) == Element(0, 3)
    ensures ElementAt("%{" + "0" + "}", 0) == Element(0, 4)
    ensures ElementAt("%{" + "-0" + "}", 0) == Element(0, 5)
    ensures ElementAt("%{" + " 1" + "}", 0) == Element(1, 5)
    ensures ElementAt("%{" + "+1" + "}", 0) == Element(1, 5)
    ensures !ReadAsDocumented("") && !ReadAsDocumented("0") && !ReadAsDocumented("-0")
    ensures !ReadAsDocumented(" 1") && !ReadAsDocumented("+1")
  {
    hide ElementAt;
    Braced("");
    Braced("0");
    Braced("-0");
    Braced(" 1");
    Braced("+1");
    OneDigit('0');
    OneDigit('1');
    assert "-0"[1..] == "0" && " 1"[1..] == "1" && "+1"[1..] == "1";
    assert !IsDigit("-0"[0]) && !IsDigit(" 1"[0]) && !IsDigit("+1"[0]);
  }

  lemma OneDigit(c: char)
    requires IsDigit(c)
    ensures AllDigits([c]) && Number([c]) == c as int - '0' as int
    ensures Unsigned([c]) == [c] && !Negative([c])
  {
    assert [c][..0] == "";
  }

  // --------------------------------------------------- which argument goes where

  /** `fmt` is the end of `all`, from `n` on. */
  ghost predicate Ends(all: string, n: nat, fmt: string) {
    |all| == n + |fmt| && all[n..] == fmt
  }

  lemma EndsAt(all: string, n: nat, fmt: string, i: nat, j: nat)
    requires Ends(all, n, fmt) && i <= j <= |fmt|
    ensures |all| == n + |fmt|
    ensures i < |fmt| ==> all[n + i] == fmt[i]
    ensures all[n + i..n + j] == fmt[i..j]
  {
    assert all[n + i..n + j] == all[n..][i..j];
  }

  lemma {:induction false} SpacesOfSuffix(all: string, n: nat, fmt: string, at: nat)
    requires Ends(all, n, fmt) && at <= |fmt|
    ensures n + at <= |all| && SpacesEnd(all, n + at) == n + SpacesEnd(fmt, at)
    decreases |fmt| - at
  {
    hide Ends;
    EndsAt(all, n, fmt, at, at);
    if at < |fmt| {
      SpacesOfSuffix(all, n, fmt, at + 1);
    }
  }

  lemma {:induction false} DigitsOfSuffix(all: string, n: nat, fmt: string, at: nat)
    requires Ends(all, n, fmt) && at <= |fmt|
    ensures n + at <= |all| && DigitsEnd(all, n + at) == n + DigitsEnd(fmt, at)
    decreases |fmt| - at
  {
    hide Ends;
    EndsAt(all, n, fmt, at, at);
    if at < |fmt| {
      DigitsOfSuffix(all, n, fmt, at + 1);
    }
  }

  lemma StrToLOfSuffix(all: string, n: nat, fmt: string, at: nat)
    requires Ends(all, n, fmt) && at <= |fmt|
    ensures n + at <= |all|
    ensures var p := StrToL(fmt, at);
      StrToL(all, n + at) == Parsed(p.value, n + p.end, p.outOfRange)
  {
    hide Number, SpacesEnd, DigitsEnd, Ends;
    SpacesOfSuffix(all, n, fmt, at);
    var sign := SpacesEnd(fmt, at);
    EndsAt(all, n, fmt, sign, sign);
    var first := if sign < |fmt| && (fmt[sign] == '+' || fmt[sign] == '-') then sign + 1 else sign;
    DigitsOfSuffix(all, n, fmt, first);
    EndsAt(all, n, fmt, first, DigitsEnd(fmt, first));
  }

  lemma ElementOfSuffix(all: string, n: nat, fmt: string, at: nat)
    requires Ends(all, n, fmt) && at < |fmt|
    ensures n + at < |all|
    ensures ElementAt(all, n + at) ==
      match ElementAt(fmt, at) case NoElement => NoElement case Element(i, end) => Element(i, n + end)
  {
    hide StrToL, Ends;
    EndsAt(all, n, fmt, at, at);
    if at + 1 < |fmt| {
      EndsAt(all, n, fmt, at + 1, at + 1);
      StrToLOfSuffix(all, n, fmt, at + 2);
      var p := StrToL(fmt, at + 2);
      EndsAt(all, n, fmt, p.end, p.end);
    }
  }

  lemma SubstStep(fmt: string, at: nat, args: seq<string>)
    requires at <= |fmt|
    ensures at == |fmt| ==> Subst(fmt, at, args) == ""
    ensures at < |fmt| ==>
      var e := ElementAt(fmt, at);
      Subst(fmt, at, args) ==
        if e.Element? then Value(args, e.index) + Subst(fmt, e.end, args) else [fmt[at]] + Subst(fmt, at + 1, args)
  {
  }

  /** What is found does not depend on what stands before. */
  lemma {:induction false} SubstOfSuffix(all: string, n: nat, fmt: string, at: nat, args: seq<string>)
    requires Ends(all, n, fmt) && at <= |fmt|
    ensures n + at <= |all| && Subst(all, n + at, args) == Subst(fmt, at, args)
    decreases |fmt| - at
  {
    hide ElementAt, Value, Ends, Subst;
    EndsAt(all, n, fmt, at, at);
    SubstStep(all, n + at, args);
    SubstStep(fmt, at, args);
    if at < |fmt| {
      ElementOfSuffix(all, n, fmt, at);
      var e := ElementAt(fmt, at);
      SubstOfSuffix(all, n, fmt, if e.Element? then e.end else at + 1, args);
    }
  }

  /** An element at the front of any format stands for the argument of its index, the first being
    * argument 1, and the rest is substituted by itself. */
  lemma ElementFirst(u: string, rest: string, args: seq<string>)
    requires '}' !in u && IsPositive(u) && Number(u) <= |args| && Number(u) <= LONG_MAX
    ensures Subst("%{" + u + "}" + rest, 0, args) == args[Number(u) - 1] + Subst(rest, 0, args)
  {
    hide ElementAt, Number, LooseIndex, Subst;
    var fmt := "%{" + u + "}" + rest;
    FirstElement(u, rest);
    SubstStep(fmt, 0, args);
    SubstOfSuffix(fmt, |u| + 3, rest, 0, args);
  }

  lemma FirstElement(u: string, rest: string)
    requires '}' !in u && IsPositive(u) && Number(u) <= LONG_MAX
    ensures var fmt := "%{" + u + "}" + rest;
      ElementAt(fmt, 0) == Element(Number(u), |u| + 3) && Ends(fmt, |u| + 3, rest)
  {
    hide ElementAt, Number, AllDigits;
    BracedThen(u, rest);
    ElementOver("%{" + u + "}" + rest, u);
  }

  lemma BracedThen(u: string, rest: string)
    ensures var fmt := "%{" + u + "}" + rest;
      && |fmt| == |u| + 3 + |rest| && fmt[0] == '%' && fmt[1] == '{' && fmt[2..|u| + 2] == u && fmt[|u| + 2] == '}'
      && Ends(fmt, |u| + 3, rest)
  {
    var head := "%{" + u;
    assert head[2..] == u && |head| == |u| + 2;
    var fmt := head + "}" + rest;
    assert fmt[..|head|] == head;
    assert fmt[2..|u| + 2] == head[2..];
  }

  lemma ElementOver(fmt: string, u: string)
    requires |fmt| >= |u| + 3 && fmt[0] == '%' && fmt[1] == '{' && fmt[2..|u| + 2] == u && fmt[|u| + 2] == '}'
    requires '}' !in u && IsPositive(u) && Number(u) <= LONG_MAX
    ensures ElementAt(fmt, 0) == Element(Number(u), |u| + 3)
  {
    hide ElementAt, Number, AllDigits, LooseIndex;
    assert forall k :: 2 <= k < |u| + 2 ==> fmt[k] == u[k - 2];
    ElementBetween(fmt, 0, Close(fmt, 2));
    DigitsAreLoose(u);
  }

  /** An element by itself is its argument. */
  lemma ElementIsArgument(u: string, args: seq<string>)
    requires '}' !in u && IsPositive(u) && Number(u) <= |args| && Number(u) <= LONG_MAX
    ensures Subst("%{" + u + "}", 0, args) == args[Number(u) - 1]
  {
    hide Subst, Number;
    ElementFirst(u, "", args);
    SubstStep("", 0, args);
    assert "%{" + u + "}" + "" == "%{" + u + "}";
  }

  /** The documented example. */
  lemma AnswerIs42()
    ensures Subst("%%" + ("%{" + "1" + "}" + ("=" + ("%{" + "2" + "}"))), 0, ["answer", "42"]) == "%answer=42"
  {
    hide Subst;
    var args := ["answer", "42"];
    OneDigit('1');
    OneDigit('2');
    ElementIsArgument("2", args);
    OthersAreCopied('=', "%{" + "2" + "}", args);
    assert Escape("%") == "%%" by { assert "%"[1..] == ""; }
    ElementAmong("%", "1", "=" + ("%{" + "2" + "}"), args);
    assert "%" + ("answer" + ("=" + "42")) == "%answer=42";
  }

  /** So does an element behind any text whose per cent signs are doubled; that comes out as it was. */
  lemma ElementAmong(before: string, u: string, rest: string, args: seq<string>)
    requires '}' !in u && IsPositive(u) && Number(u) <= |args| && Number(u) <= LONG_MAX
    ensures Subst(Escape(before) + ("%{" + u + "}" + rest), 0, args) ==
      before + (args[Number(u) - 1] + Subst(rest, 0, args))
  {
    hide Subst, Number;
    var tail := "%{" + u + "}" + rest;
    EscapedFirst(before, tail, args);
    ElementFirst(u, rest, args);
  }

  lemma {:induction false} EscapedFirst(s: string, rest: string, args: seq<string>)
    ensures Subst(Escape(s) + rest, 0, args) == s + Subst(rest, 0, args)
    decreases |s|
  {
    hide Subst;
    if s == "" {
      assert Escape(s) + rest == rest;
    } else {
      var tail := Escape(s[1..]) + rest;
      EscapedFirst(s[1..], rest, args);
      OthersAreCopied(s[0], tail, args);
      assert Escape(s) + rest == (if s[0] == '%' then "%%" else [s[0]]) + tail;
      assert s == [s[0]] + s[1..];
    }
  }

  /** The value of a numeral, digit by digit. */
  lemma NumberOutcome(u: string, c: char)
    requires AllDigits(u) && '0' <= c <= '9'
    ensures AllDigits(u + [c]) && Number(u + [c]) == 10 * Number(u) + (c as int - '0' as int) && Number("") == 0
  {
    assert (u + [c])[..|u|] == u;
  }

  /** White space is blank, tab, line feed, vertical tab, form feed and carriage return. */
  lemma SpacesAre(c: char)
    ensures IsSpace(c) <==> c as int in {9, 10, 11, 12, 13, 32}
    ensures IsDigit(c) <==> 48 <= c as int <= 57
    ensures LONG_MAX == 9223372036854775807
  {
  }

  /** Anything else is copied character by character. */
  lemma OthersAreCopied(c: char, rest: string, args: seq<string>)
    ensures c != '%' ==> Subst([c] + rest, 0, args) == [c] + Subst(rest, 0, args)
    ensures Subst("%%" + rest, 0, args) == "%" + Subst(rest, 0, args)
    ensures Subst("", 0, args) == "" && Subst("%", 0, args) == "%"
  {
    hide Subst, StrToL;
    SubstOfSuffix([c] + rest, 1, rest, 0, args);
    SubstOfSuffix("%%" + rest, 2, rest, 0, args);
    SubstStep([c] + rest, 0, args);
    SubstStep("%%" + rest, 0, args);
    SubstStep("", 0, args);
    SubstStep("%", 0, args);
    SubstStep("%", 1, args);
  }
}
