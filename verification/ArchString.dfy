/**
  * src/lib/arch/IArchString.cpp: conversion between wide characters and the octets of
  * the locale, and the two functions of src/lib/base/Unicode.cpp that use it. The C
  * library's wctomb and mbtowc are any stateless pair of functions.
  */
module ArchString {
  import opened Options
  import opened Utf8
  import opened Unicode

  /** What mbtowc finds at the front of some octets. */
  datatype Found = Incomplete | Invalid | Nul | Wide(c: UInt32, size: nat)

  /** `toMb` is wctomb, None for -1. */
  datatype Locale = Locale(toMb: UInt32 -> Option<seq<byte>>, fromMb: seq<byte> -> Found)

  /** What the C library promises of the sizes it returns. */
  ghost predicate Sound(l: Locale) {
    && (forall c :: l.toMb(c).Some? ==> l.toMb(c).value != [])
    && (forall s :: l.fromMb(s).Wide? ==> 1 <= l.fromMb(s).size <= |s|)
  }

  const QUESTION: byte := 0x3f

  /** The octets of one wide character, a question mark if the locale has none. */
  function Octets(l: Locale, c: UInt32): (s: seq<byte>) {
    var mb := l.toMb(c);
    if mb.None? then [QUESTION] else mb.value
  }

  function OctetsAll(l: Locale, ws: seq<UInt32>): seq<byte> {
    if ws == [] then [] else Octets(l, ws[0]) + OctetsAll(l, ws[1..])
  }

  /** What the terminator adds before its own nul. */
  function Ending(l: Locale): seq<byte> {
    var mb := l.toMb(0);
    if mb.None? || mb.value == [] then [] else mb.value[..|mb.value| - 1]
  }

  function TextOf(l: Locale, ws: seq<UInt32>): seq<byte> {
    OctetsAll(l, ws) + Ending(l)
  }

  predicate Unencodable(l: Locale, ws: seq<UInt32>) {
    exists i :: 0 <= i < |ws| && l.toMb(ws[i]).None?
  }

  /** The wide characters read from text, and whether some of it could not be read. */
  datatype Wides = Wides(ws: seq<UInt32>, errors: bool)

  function WidesOf(l: Locale, text: seq<byte>): Wides
    decreases |text|
  {
    if text == [] then Wides([], false)
    else
      match l.fromMb(text)
      case Incomplete => Wides([REPLACEMENT], true)
      case Invalid => var r := WidesOf(l, text[1..]); Wides([REPLACEMENT] + r.ws, true)
      case Nul => var r := WidesOf(l, text[1..]); Wides([0] + r.ws, r.errors)
      case Wide(c, size) =>
        if 1 <= size <= |text| then var r := WidesOf(l, text[size..]); Wides([c] + r.ws, r.errors)
        else Wides([], false)
  }

  lemma UnencodableCons(l: Locale, ws: seq<UInt32>)
    requires ws != []
    ensures Unencodable(l, ws) <==> l.toMb(ws[0]).None? || Unencodable(l, ws[1..])
  {
    if Unencodable(l, ws[1..]) {
      var i :| 0 <= i < |ws[1..]| && l.toMb(ws[1..][i]).None?;
      assert l.toMb(ws[i + 1]).None?;
    }
    if l.toMb(ws[0]).Some? && Unencodable(l, ws) {
      var i :| 0 <= i < |ws| && l.toMb(ws[i]).None?;
      assert l.toMb(ws[1..][i - 1]).None?;
    }
  }

  /** What is written of one wide character and of the end, and what is read at the front. */
  lemma LocaleOutcomes(l: Locale, w: UInt32, ws: seq<UInt32>, s: seq<byte>)
    ensures TextOf(l, []) == match l.toMb(0) case None => [] case Some(mb) => if mb == [] then [] else mb[..|mb| - 1]
    ensures TextOf(l, [w] + ws) == (if l.toMb(w).None? then [0x3f] else l.toMb(w).value) + TextOf(l, ws)
    ensures WidesOf(l, []) == Wides([], false)
    ensures s != [] && l.fromMb(s).Incomplete? ==> WidesOf(l, s) == Wides([0xfffd], true)
    ensures s != [] && l.fromMb(s).Invalid? ==> WidesOf(l, s) == Wides([0xfffd] + WidesOf(l, s[1..]).ws, true)
    ensures s != [] && l.fromMb(s).Nul? ==>
      WidesOf(l, s) == Wides([0] + WidesOf(l, s[1..]).ws, WidesOf(l, s[1..]).errors)
    ensures s != [] && l.fromMb(s).Wide? && 1 <= l.fromMb(s).size <= |s| ==>
      var rest := WidesOf(l, s[l.fromMb(s).size..]);
      WidesOf(l, s) == Wides([l.fromMb(s).c] + rest.ws, rest.errors)
    ensures Unencodable(l, ws) <==> exists i :: 0 <= i < |ws| && l.toMb(ws[i]).None?
  {
    assert ([w] + ws)[1..] == ws;
  }

  // ------------------------------------------------------- the measuring passes

  /** `convStringWCToMB` with no destination. */
  method MeasureWCToMB(l: Locale, src: seq<UInt32>) returns (len: nat, errors: bool)
    requires Sound(l)
    ensures len == |TextOf(l, src)| && (errors <==> Unencodable(l, src))
  {
    len, errors := 0, false;
    var scan := src;
    while scan != []
      invariant len + |OctetsAll(l, scan)| == |OctetsAll(l, src)|
      invariant errors || Unencodable(l, scan) <==> Unencodable(l, src)
      decreases |scan|
    {
      UnencodableCons(l, scan);
      var mb := l.toMb(scan[0]);
      if mb.None? {
        errors := true;
        len := len + 1;
      } else {
        len := len + |mb.value|;
      }
      scan := scan[1..];
    }
    var nul := l.toMb(0);
    if nul.Some? {
      len := len + |nul.value| - 1;
    }
  }

  /** `convStringMBToWC` with no destination. */
  method MeasureMBToWC(l: Locale, src: seq<byte>) returns (len: nat, errors: bool)
    requires Sound(l)
    ensures len == |WidesOf(l, src).ws| && errors == WidesOf(l, src).errors
  {
    len, errors := 0, false;
    var scan := src;
    while scan != []
      invariant len + |WidesOf(l, scan).ws| == |WidesOf(l, src).ws|
      invariant (errors || WidesOf(l, scan).errors) == WidesOf(l, src).errors
      decreases |scan|
    {
      match l.fromMb(scan)
      case Incomplete => errors, len, scan := true, len + 1, [];
      case Invalid => errors, len, scan := true, len + 1, scan[1..];
      case Nul => len, scan := len + 1, scan[1..];
      case Wide(_, size) => len, scan := len + 1, scan[size..];
    }
  }

  // --------------------------------------------------------- the writing passes

  /** wctomb into the buffer. */
  method Store(dst: array<byte>, at: nat, octets: seq<byte>)
    requires at + |octets| <= dst.Length
    modifies dst
    ensures dst[..at] == old(dst[..at]) && dst[at..at + |octets|] == octets
    ensures dst[at + |octets|..] == old(dst[at + |octets|..])
  {
    var i := 0;
    while i < |octets|
      invariant 0 <= i <= |octets|
      invariant forall k :: 0 <= k < i ==> dst[at + k] == octets[k]
      invariant forall k :: 0 <= k < dst.Length && !(at <= k < at + i) ==> dst[k] == old(dst[k])
    {
      dst[at + i] := octets[i];
      i := i + 1;
    }
  }

  method PutCharacter(l: Locale, dst: array<byte>, at: nat, c: UInt32) returns (end: nat, error: bool)
    requires at + |Octets(l, c)| <= dst.Length
    modifies dst
    ensures end == at + |Octets(l, c)| && (error <==> l.toMb(c).None?)
    ensures dst[..end] == old(dst[..at]) + Octets(l, c)
    ensures dst[end..] == old(dst[end..])
  {
    var mb := l.toMb(c);
    error := mb.None?;
    if mb.None? {
      dst[at] := QUESTION;
      end := at + 1;
    } else {
      Store(dst, at, mb.value);
      end := at + |mb.value|;
    }
  }

  /** The nul is written but not counted. */
  method PutEnding(l: Locale, dst: array<byte>, at: nat) returns (end: nat)
    requires Sound(l) && at + |Ending(l)| < dst.Length
    modifies dst
    ensures end == at + |Ending(l)|
    ensures dst[..end] == old(dst[..at]) + Ending(l)
    ensures dst[end + 1..] == old(dst[end + 1..])
  {
    end := at;
    var nul := l.toMb(0);
    if nul.Some? {
      Store(dst, at, nul.value);
      end := at + |nul.value| - 1;
    }
  }

  /** `convStringWCToMB` into a buffer with room for the text and one octet more: the text is
    * what the other pass has measured, and nothing behind that one octet is touched. */
  method WriteWCToMB(l: Locale, dst: array<byte>, src: seq<UInt32>) returns (len: nat, errors: bool)
    requires Sound(l) && dst.Length >= |TextOf(l, src)| + 1
    modifies dst
    ensures len == |TextOf(l, src)| && (errors <==> Unencodable(l, src))
    ensures dst[..len] == TextOf(l, src)
    ensures dst[len + 1..] == old(dst[len + 1..])
  {
    hide Sound, Octets, Ending;
    errors := false;
    var at := 0;
    var scan := src;
    while scan != []
      invariant 0 <= at <= dst.Length
      invariant dst[..at] + OctetsAll(l, scan) == OctetsAll(l, src)
      invariant dst[at..] == old(dst[at..])
      invariant errors || Unencodable(l, scan) <==> Unencodable(l, src)
      decreases |scan|
    {
      UnencodableCons(l, scan);
      ghost var rest := dst[at..];
      var end, error := PutCharacter(l, dst, at, scan[0]);
      assert dst[end..] == rest[end - at..];
      errors := errors || error;
      at, scan := end, scan[1..];
    }
    ghost var rest := dst[at..];
    len := PutEnding(l, dst, at);
    assert dst[len + 1..] == rest[len + 1 - at..];
  }

  method PutWide(dst: array<UInt32>, at: nat, w: UInt32)
    requires at < dst.Length
    modifies dst
    ensures dst[..at + 1] == old(dst[..at]) + [w]
    ensures dst[at + 1..] == old(dst[at..])[1..]
  {
    dst[at] := w;
  }

  lemma WidesStep(l: Locale, s: seq<byte>)
    requires Sound(l) && s != []
    ensures l.fromMb(s).Incomplete? ==> WidesOf(l, s) == Wides([REPLACEMENT], true)
    ensures l.fromMb(s).Invalid? ==> WidesOf(l, s) == Wides([REPLACEMENT] + WidesOf(l, s[1..]).ws, true)
    ensures l.fromMb(s).Nul? ==> WidesOf(l, s) == Wides([0] + WidesOf(l, s[1..]).ws, WidesOf(l, s[1..]).errors)
    ensures l.fromMb(s).Wide? ==>
      && 1 <= l.fromMb(s).size <= |s|
      && var rest := WidesOf(l, s[l.fromMb(s).size..]);
        WidesOf(l, s) == Wides([l.fromMb(s).c] + rest.ws, rest.errors)
  {
  }

  /** mbtowc and the switch on what it returns. */
  method ReadWide(l: Locale, scan: seq<byte>) returns (w: UInt32, error: bool, rest: seq<byte>)
    requires Sound(l) && scan != []
    ensures WidesOf(l, scan).ws == [w] + WidesOf(l, rest).ws
    ensures WidesOf(l, scan).errors == (error || WidesOf(l, rest).errors)
    ensures |rest| < |scan|
  {
    hide Sound, WidesOf;
    WidesStep(l, scan);
    NoWides(l);
    match l.fromMb(scan)
    case Incomplete => w, error, rest := REPLACEMENT, true, [];
    case Invalid => w, error, rest := REPLACEMENT, true, scan[1..];
    case Nul => w, error, rest := 0, false, scan[1..];
    case Wide(c, size) => w, error, rest := c, false, scan[size..];
  }

  /** `convStringMBToWC` into a buffer of the measured length. */
  method WriteMBToWC(l: Locale, dst: array<UInt32>, src: seq<byte>) returns (len: nat, errors: bool)
    requires Sound(l) && dst.Length >= |WidesOf(l, src).ws|
    modifies dst
    ensures len == |WidesOf(l, src).ws| && errors == WidesOf(l, src).errors
    ensures dst[..len] == WidesOf(l, src).ws
    ensures dst[len..] == old(dst[len..])
  {
    hide Sound, WidesOf;
    len, errors := 0, false;
    var scan := src;
    NoWides(l);
    while scan != []
      invariant 0 <= len <= dst.Length
      invariant dst[..len] + WidesOf(l, scan).ws == WidesOf(l, src).ws
      invariant dst[len..] == old(dst[len..])
      invariant (errors || WidesOf(l, scan).errors) == WidesOf(l, src).errors
      decreases |scan|
    {
      var w, error, rest := ReadWide(l, scan);
      PutWide(dst, len, w);
      errors := errors || error;
      len, scan := len + 1, rest;
    }
  }

  lemma NoWides(l: Locale)
    ensures WidesOf(l, []) == Wides([], false)
  {
  }

  // --------------------------------------------------- UTF8ToText and textToUTF8

  /** How the platform encodes wide characters. */
  datatype WideEncoding = UCS2 | UCS4 | UTF16 | UTF32

  function Limit(e: WideEncoding): int {
    match e case UCS2 => UCS2_LIMIT case UCS4 => UCS4_LIMIT case UTF16 => UTF32_LIMIT case UTF32 => UTF32_LIMIT
  }

  function WideOf(e: WideEncoding, s: seq<byte>): seq<UInt32> {
    match e
    case UCS2 => Units16(Utf8ToUcs2(s), false)
    case UCS4 => Units32(Utf8To32(s, UCS4_LIMIT), false)
    case UTF16 => Units16(Utf8ToUtf16(s), false)
    case UTF32 => Units32(Utf8To32(s, UTF32_LIMIT), false)
  }

  method UTF8ToWideChar(src: seq<byte>, e: WideEncoding) returns (dst: seq<UInt32>, errors: bool)
    ensures dst == WideOf(e, src)
    ensures errors <==> TooBig(DecodeAll(src), Limit(e))
    ensures match e
      case UCS2 => dst == Units16(Utf8ToUcs2(src), false) && (errors <==> TooBig(DecodeAll(src), 0x1_0000))
      case UCS4 => dst == Units32(Utf8To32(src, 0x8000_0000), false) && !errors
      case UTF16 => dst == Units16(Utf8ToUtf16(src), false) && (errors <==> TooBig(DecodeAll(src), 0x11_0000))
      case UTF32 => dst == Units32(Utf8To32(src, 0x11_0000), false) && (errors <==> TooBig(DecodeAll(src), 0x11_0000))
  {
    hide DecodeAll, Utf8To32, Utf8ToUcs2, Utf8ToUtf16, Units16, Units32;
    var tmp;
    match e {
      case UCS2 =>
        tmp, errors := UTF8ToUCS2(src);
        dst := Units16(tmp, false);
      case UCS4 =>
        tmp, errors := UTF8ToUCS4(src);
        dst := Units32(tmp, false);
      case UTF16 =>
        tmp, errors := UTF8ToUTF16(src);
        dst := Units16(tmp, false);
      case UTF32 =>
        tmp, errors := UTF8ToUTF32(src);
        dst := Units32(tmp, false);
    }
  }

  /** The text fits into the buffer of the measured length plus one. Both calls of
    * `convStringWCToMB` start by clearing the error flag, so what `UTF8ToWideChar` has
    * reported is lost. */
  method UTF8ToText(l: Locale, src: seq<byte>, e: WideEncoding) returns (text: seq<byte>, errors: bool)
    requires Sound(l)
    ensures text == TextOf(l, WideOf(e, src))
    ensures errors <==> Unencodable(l, WideOf(e, src))
  {
    hide Sound, TextOf, WideOf, DecodeAll;
    var tmp;
    tmp, errors := UTF8ToWideChar(src, e);
    var len, written;
    len, errors := MeasureWCToMB(l, tmp);
    var mbs := new byte[len + 1];
    written, errors := WriteWCToMB(l, mbs, tmp);
    text := mbs[..len];
  }

  /** The characters that end up in the wide string, when they do not fit REPLACEMENT. */
  lemma WideOfIs(e: WideEncoding, s: seq<byte>)
    ensures e != UTF16 ==> WideOf(e, s) == RepairAll(DecodeAll(s), Limit(e))
    ensures e == UTF16 ==> WideOf(e, s) == Utf16Of(RepairAll(DecodeAll(s), UTF32_LIMIT))
  {
    hide DecodeAll, Units16, Units32, Pack16All, Pack32All, Utf16Of, TooBig;
    var cs := DecodeAll(s);
    match e {
      case UCS2 => Units16OfPack(Narrow(RepairAll(cs, UCS2_LIMIT)));
      case UCS4 => Units32OfPack(RepairAll(cs, UCS4_LIMIT));
      case UTF16 => Units16OfPack(Utf16Of(RepairAll(cs, UTF32_LIMIT)));
      case UTF32 => Units32OfPack(RepairAll(cs, UTF32_LIMIT));
    }
  }

  lemma {:induction false} Utf16KeepsReplacement(cs: seq<Code>)
    requires !TooBig(cs, UTF32_LIMIT) && REPLACEMENT in cs
    ensures REPLACEMENT in Utf16Of(cs)
  {
    TooBigCons(cs[0], cs[1..], UTF32_LIMIT);
    assert cs == [cs[0]] + cs[1..];
    if cs[0] != REPLACEMENT {
      Utf16KeepsReplacement(cs[1..]);
    }
  }

  /** A character that does not fit the wide encoding leaves U+FFFD behind. */
  lemma TooBigLeavesReplacement(e: WideEncoding, s: seq<byte>)
    requires TooBig(DecodeAll(s), Limit(e))
    ensures REPLACEMENT in WideOf(e, s)
  {
    hide DecodeAll, WideOf, Utf16Of;
    WideOfIs(e, s);
    var cs := DecodeAll(s);
    var i :| 0 <= i < |cs| && cs[i] >= Limit(e);
    assert RepairAll(cs, Limit(e))[i] == REPLACEMENT;
    if e == UTF16 {
      Utf16KeepsReplacement(RepairAll(cs, UTF32_LIMIT));
    }
  }

  /** The wide characters of one character that fits. */
  function WideUnits(e: WideEncoding, c: Code): seq<UInt32>
    requires c < Limit(e)
  {
    if e == UTF16 then Utf16Of([c]) else [c]
  }

  /** Among the characters read, malformed stretches aside, is one that fits the wide encoding but
    * that the locale does not have? */
  predicate Lacks(l: Locale, e: WideEncoding, cs: seq<Code>) {
    exists i :: 0 <= i < |cs| && cs[i] != INVALID && cs[i] < Limit(e) && Unencodable(l, WideUnits(e, cs[i]))
  }

  /** The documented error flag of `UTF8ToText`: some character could not be encoded. Malformed
    * stretches, which read as INVALID, do not count. */
  predicate Lossy(l: Locale, e: WideEncoding, s: seq<byte>) {
    exists i :: 0 <= i < |DecodeAll(s)| &&
      var c := DecodeAll(s)[i];
      c != INVALID && (c >= Limit(e) || Unencodable(l, WideUnits(e, c)))
  }

  lemma UnencodableAppend(l: Locale, ws: seq<UInt32>, vs: seq<UInt32>)
    ensures Unencodable(l, ws + vs) <==> Unencodable(l, ws) || Unencodable(l, vs)
  {
    if Unencodable(l, ws + vs) {
      var i :| 0 <= i < |ws + vs| && l.toMb((ws + vs)[i]).None?;
      assert i >= |ws| ==> l.toMb(vs[i - |ws|]).None?;
    }
    if Unencodable(l, ws) {
      var i :| 0 <= i < |ws| && l.toMb(ws[i]).None?;
      assert l.toMb((ws + vs)[i]).None?;
    }
    if Unencodable(l, vs) {
      var i :| 0 <= i < |vs| && l.toMb(vs[i]).None?;
      assert l.toMb((ws + vs)[|ws| + i]).None?;
    }
  }

  /** Does the locale lack one of these characters, all of which fit? */
  ghost predicate LacksSome(l: Locale, e: WideEncoding, ds: seq<Code>)
    requires !TooBig(ds, Limit(e))
  {
    exists i :: 0 <= i < |ds| && Unencodable(l, WideUnits(e, ds[i]))
  }

  lemma LacksSomeStep(l: Locale, e: WideEncoding, ds: seq<Code>)
    requires !TooBig(ds, Limit(e)) && ds != []
    ensures !TooBig(ds[1..], Limit(e))
    ensures LacksSome(l, e, ds) <==> Unencodable(l, WideUnits(e, ds[0])) || LacksSome(l, e, ds[1..])
  {
    hide Unencodable, WideUnits;
    if LacksSome(l, e, ds) {
      var i :| 0 <= i < |ds| && Unencodable(l, WideUnits(e, ds[i]));
      assert i > 0 ==> ds[1..][i - 1] == ds[i];
    }
    assert forall i :: 0 <= i < |ds[1..]| ==> ds[1..][i] == ds[i + 1];
  }

  lemma {:induction false} UnencodableUnits(l: Locale, e: WideEncoding, ds: seq<Code>)
    requires !TooBig(ds, Limit(e))
    ensures e != UTF16 ==> (Unencodable(l, ds) <==> LacksSome(l, e, ds))
    ensures e == UTF16 ==> (Unencodable(l, Utf16Of(ds)) <==> LacksSome(l, e, ds))
  {
    hide Unencodable, LacksSome;
    if ds == [] {
      NothingLacked(l, e);
    } else {
      LacksSomeStep(l, e, ds);
      UnencodableUnits(l, e, ds[1..]);
      assert ds == [ds[0]] + ds[1..];
      if e == UTF16 {
        assert Utf16Of(ds) == Utf16Of([ds[0]]) + Utf16Of(ds[1..]);
        UnencodableAppend(l, Utf16Of([ds[0]]), Utf16Of(ds[1..]));
      } else {
        UnencodableAppend(l, [ds[0]], ds[1..]);
      }
    }
  }

  lemma NothingLacked(l: Locale, e: WideEncoding)
    ensures !Unencodable(l, []) && !LacksSome(l, e, [])
  {
  }

  lemma ReplacementUnits(l: Locale, e: WideEncoding)
    ensures Unencodable(l, WideUnits(e, REPLACEMENT)) <==> l.toMb(REPLACEMENT).None?
  {
    assert Utf16Of([REPLACEMENT]) == [REPLACEMENT];
    assert l.toMb([REPLACEMENT][0]).None? ==> Unencodable(l, [REPLACEMENT]);
  }

  /** What the code reports, in terms of the characters read. */
  lemma FlagIs(l: Locale, e: WideEncoding, s: seq<byte>)
    ensures Unencodable(l, WideOf(e, s)) <==>
      Lacks(l, e, DecodeAll(s)) ||
      (l.toMb(REPLACEMENT).None? && (INVALID in DecodeAll(s) || TooBig(DecodeAll(s), Limit(e))))
  {
    hide DecodeAll, WideOf, Unencodable, Utf16Of, Lacks, LacksSome, TooBig, RepairAll;
    WideOfIs(e, s);
    UnencodableUnits(l, e, RepairAll(DecodeAll(s), Limit(e)));
    RepairedLacks(l, e, DecodeAll(s));
    LackingRepaired(l, e, DecodeAll(s));
  }

  lemma RepairedLacks(l: Locale, e: WideEncoding, cs: seq<Code>)
    ensures LacksSome(l, e, RepairAll(cs, Limit(e))) ==>
      Lacks(l, e, cs) || (l.toMb(REPLACEMENT).None? && (INVALID in cs || TooBig(cs, Limit(e))))
  {
    hide Unencodable, WideUnits;
    var ds := RepairAll(cs, Limit(e));
    ReplacementUnits(l, e);
    if LacksSome(l, e, ds) {
      var i :| 0 <= i < |ds| && Unencodable(l, WideUnits(e, ds[i]));
      assert ds[i] == Repair(cs[i], Limit(e));
    }
  }

  lemma LackingRepaired(l: Locale, e: WideEncoding, cs: seq<Code>)
    ensures Lacks(l, e, cs) || (l.toMb(REPLACEMENT).None? && (INVALID in cs || TooBig(cs, Limit(e)))) ==>
      LacksSome(l, e, RepairAll(cs, Limit(e)))
  {
    hide Unencodable, WideUnits;
    var ds := RepairAll(cs, Limit(e));
    ReplacementUnits(l, e);
    if Lacks(l, e, cs) {
      var i :| 0 <= i < |cs| && cs[i] != INVALID && cs[i] < Limit(e) && Unencodable(l, WideUnits(e, cs[i]));
      assert ds[i] == cs[i];
    } else if INVALID in cs {
      var i :| 0 <= i < |cs| && cs[i] == INVALID;
      assert ds[i] == REPLACEMENT;
    } else if TooBig(cs, Limit(e)) {
      var i :| 0 <= i < |cs| && cs[i] >= Limit(e);
      assert ds[i] == REPLACEMENT;
    }
  }

  lemma LossyIs(l: Locale, e: WideEncoding, s: seq<byte>)
    ensures Lossy(l, e, s) <==> Lacks(l, e, DecodeAll(s)) || TooBig(DecodeAll(s), Limit(e))
  {
    hide DecodeAll, Unencodable, WideUnits;
    var cs := DecodeAll(s);
    if TooBig(cs, Limit(e)) {
      var i :| 0 <= i < |cs| && cs[i] >= Limit(e);
      assert cs[i] != INVALID;
    }
  }

  /** For one input the flag is the documented one exactly when the locale lacks a character that
    * fits, or else: with U+FFFD in the locale, when nothing is too big; without it, when something
    * is too big or nothing is malformed. */
  lemma FlagIsRightFor(l: Locale, e: WideEncoding, s: seq<byte>)
    ensures (Unencodable(l, WideOf(e, s)) <==> Lossy(l, e, s)) <==>
      || Lacks(l, e, DecodeAll(s))
      || (if l.toMb(REPLACEMENT).Some? then !TooBig(DecodeAll(s), Limit(e))
          else TooBig(DecodeAll(s), Limit(e)) || INVALID !in DecodeAll(s))
  {
    hide WideOf, DecodeAll, Lossy, Lacks, TooBig, Unencodable;
    FlagIs(l, e, s);
    LossyIs(l, e, s);
  }

  /** The flag `UTF8ToText` returns is the documented one for every input if and only if wide
    * characters are UCS-4 and the locale has U+FFFD. */
  lemma FlagIsRightIff(l: Locale, e: WideEncoding)
    ensures (forall s :: Unencodable(l, WideOf(e, s)) <==> Lossy(l, e, s)) <==>
      e == UCS4 && l.toMb(REPLACEMENT).Some?
  {
    hide WideOf, DecodeAll, Lossy, Lacks, Unencodable;
    if e == UCS4 && l.toMb(REPLACEMENT).Some? {
      forall s ensures Unencodable(l, WideOf(e, s)) <==> Lossy(l, e, s) {
        FlagIsRightFor(l, e, s);
      }
    } else if l.toMb(REPLACEMENT).Some? {
      FlagLost(l, e);
      LossyIs(l, e, Encode(0x11_0000));
      assert Lossy(l, e, Encode(0x11_0000)) && !Unencodable(l, WideOf(e, Encode(0x11_0000)));
    } else {
      FlagForDecodingError(l, e);
      assert !Lossy(l, e, [0xff]) && Unencodable(l, WideOf(e, [0xff]));
    }
  }

  /** An octet that begins nothing is a decoding error and nothing else; if the locale has no
    * U+FFFD, an error is reported. */
  lemma FlagForDecodingError(l: Locale, e: WideEncoding)
    requires l.toMb(REPLACEMENT).None?
    ensures DecodeAll([0xff]) == [INVALID] && !Lossy(l, e, [0xff])
    ensures Unencodable(l, WideOf(e, [0xff]))
  {
    hide WideOf, Unencodable;
    assert Decode([0xff]) == Decoded(INVALID, 1);
    assert DecodeAll([0xff]) == [INVALID];
    FlagIs(l, e, [0xff]);
  }

  /** The character 0x110000, alone, does not fit UCS-2, UTF-16 or UTF-32; if the locale has
    * U+FFFD, no error is reported. */
  lemma FlagLost(l: Locale, e: WideEncoding)
    requires e != UCS4 && l.toMb(REPLACEMENT).Some?
    ensures TooBig(DecodeAll(Encode(0x11_0000)), Limit(e))
    ensures !Unencodable(l, WideOf(e, Encode(0x11_0000)))
  {
    hide WideOf, Encode, Decode;
    var s := Encode(0x11_0000);
    DecodeOfEncode(0x11_0000, []);
    assert s + [] == s;
    assert DecodeAll(s) == [0x11_0000];
    WideOfIs(e, s);
    assert RepairAll([0x11_0000], Limit(e)) == [REPLACEMENT];
    assert Utf16Of([REPLACEMENT]) == [REPLACEMENT];
  }

  // ------------------------------------------------------------- the way back

  /** What the platform has for wchar_t: its size in octets, 2 or 4, and its encoding. */
  datatype Platform = Platform(width: nat, native: WideEncoding)

  function UnitSize(e: WideEncoding): nat {
    if e == UCS2 || e == UTF16 then 2 else 4
  }

  /** The platform's own encoding has units of the size of wchar_t. */
  predicate Consistent(p: Platform) {
    p.width == UnitSize(p.native)
  }

  predicate Fits(width: nat, ws: seq<UInt32>) {
    width == 4 || (width == 2 && forall i :: 0 <= i < |ws| ==> ws[i] < 0x1_0000)
  }

  function Units(ws: seq<UInt32>): (us: seq<UInt16>)
    requires Fits(2, ws)
  {
    ws
  }

  /** An array of wchar_t as the octets it consists of. */
  function Stored(width: nat, ws: seq<UInt32>): (octets: seq<byte>)
    requires Fits(width, ws)
    ensures |octets| == width * |ws|
  {
    if width == 2 then Pack16All(Units(ws)) else Pack32All(ws)
  }

  /** As many units of `e` as there are wide characters are read from their array, whatever the
    * size of wchar_t. Larger units run past the end of what was written there. */
  predicate ReadsInside(width: nat, e: WideEncoding, ws: seq<UInt32>) {
    UnitSize(e) * |ws| <= width * |ws|
  }

  function OctetsRead(width: nat, e: WideEncoding, ws: seq<UInt32>): (octets: seq<byte>)
    requires Fits(width, ws) && ReadsInside(width, e, ws)
  {
    Stored(width, ws)[..UnitSize(e) * |ws|]
  }

  /** UTF-8 made of such octets, and whether an error is reported. */
  datatype Text = Text(utf8: seq<byte>, errors: bool)

  function TextFrom(e: WideEncoding, data: seq<byte>): Text {
    match e
    case UCS2 => Text(Utf8Of(Ucs2Chars(data)), Unwritable(Ucs2Chars(data)))
    case UCS4 => Text(Utf8Of(Ucs4Chars(data)), Unwritable(Ucs4Chars(data)))
    case UTF16 => var r := Utf16Chars(data, AS_WRITTEN); Text(Utf8Of(r.cs), r.errors)
    case UTF32 => var r := Utf32Chars(data); Text(EncodeAll(r.cs), r.errors)
  }

  /** The `encoding` argument; None is kPlatformDetermined. */
  function Chosen(p: Platform, encoding: Option<WideEncoding>): WideEncoding {
    if encoding.None? then p.native else encoding.value
  }

  method WideCharToUTF8(p: Platform, ws: seq<UInt32>, encoding: Option<WideEncoding>)
    returns (utf8: seq<byte>, errors: bool)
    requires Fits(p.width, ws) && ReadsInside(p.width, Chosen(p, encoding), ws)
    ensures Text(utf8, errors) == TextFrom(Chosen(p, encoding), OctetsRead(p.width, Chosen(p, encoding), ws))
    ensures var e := if encoding.None? then p.native else encoding.value;
      var octets := if p.width == 2 then Pack16All(Units(ws)) else Pack32All(ws);
      match e
      case UCS2 =>
        utf8 == Utf8Of(Ucs2Chars(octets[..2 * |ws|])) && (errors <==> Unwritable(Ucs2Chars(octets[..2 * |ws|])))
      case UCS4 =>
        utf8 == Utf8Of(Ucs4Chars(octets[..4 * |ws|])) && (errors <==> Unwritable(Ucs4Chars(octets[..4 * |ws|])))
      case UTF16 =>
        var r := Utf16Chars(octets[..2 * |ws|], 0);
        utf8 == Utf8Of(r.cs) && errors == r.errors
      case UTF32 =>
        var r := Utf32Chars(octets[..4 * |ws|]);
        utf8 == EncodeAll(r.cs) && errors == r.errors
  {
    hide Ucs2Chars, Ucs4Chars, Utf16Chars, Utf32Chars, Utf8Of, Unwritable, Pack16All, Pack32All;
    var e := Chosen(p, encoding);
    var data := OctetsRead(p.width, e, ws);
    match e {
      case UCS2 => utf8, errors := UCS2ToUTF8(data);
      case UCS4 => utf8, errors := UCS4ToUTF8(data);
      case UTF16 => utf8, errors := UTF16ToUTF8(data);
      case UTF32 => utf8, errors := UTF32ToUTF8(data);
    }
  }

  /** Here the flag keeps what both halves report. A wchar_t holds what mbtowc stores in it; a
    * request that reads past the wide string has no defined result. */
  method TextToUTF8(l: Locale, p: Platform, src: seq<byte>, encoding: Option<WideEncoding>)
    returns (utf8: seq<byte>, errors: bool)
    requires Sound(l) && Fits(p.width, WidesOf(l, src).ws)
    requires ReadsInside(p.width, Chosen(p, encoding), WidesOf(l, src).ws)
    ensures var w, e := WidesOf(l, src), Chosen(p, encoding);
      var t := TextFrom(e, OctetsRead(p.width, e, w.ws));
      utf8 == t.utf8 && (errors <==> w.errors || t.errors)
  {
    hide Sound, WidesOf, TextFrom, OctetsRead;
    var len, written, unread;
    len, unread := MeasureMBToWC(l, src);
    var wcs := new UInt32[len + 1];
    written, unread := WriteMBToWC(l, wcs, src);
    utf8, errors := WideCharToUTF8(p, wcs[..len], encoding);
    errors := unread || errors;
  }

  /** Wide characters that stand for themselves: no surrogate, no mark in front, nothing beyond
    * U+10FFFF or the size of wchar_t. */
  predicate Plain(width: nat, ws: seq<UInt32>) {
    && Fits(width, ws)
    && (forall i :: 0 <= i < |ws| ==> ws[i] < UTF32_LIMIT && IsCharacter(ws[i]))
    && (ws != [] ==> ws[0] != 0xfeff)
  }

  function AsCodes(ws: seq<UInt32>): (cs: seq<Code>)
    requires forall i :: 0 <= i < |ws| ==> ws[i] < UTF32_LIMIT
    ensures cs == ws
  {
    ws
  }

  ghost predicate RightFor(width: nat, e: WideEncoding, ws: seq<UInt32>)
    requires Plain(width, ws)
  {
    ReadsInside(width, e, ws) && TextFrom(e, OctetsRead(width, e, ws)) == Text(EncodeAll(AsCodes(ws)), false)
  }

  /** A requested encoding gives the right text for every plain wide string if and only if its
    * units have the size of wchar_t. */
  lemma RequestIsRightIff(width: nat, e: WideEncoding)
    requires width == 2 || width == 4
    ensures (forall ws :: Plain(width, ws) ==> RightFor(width, e, ws)) <==> UnitSize(e) == width
  {
    hide RightFor, Plain;
    if UnitSize(e) == width {
      forall ws | Plain(width, ws) ensures RightFor(width, e, ws) {
        SameSizeIsRight(e, ws);
      }
    } else {
      HelloIsPlain();
      HelloGoesWrong(width, e);
    }
  }

  lemma SameSizeIsRight(e: WideEncoding, ws: seq<UInt32>)
    requires Plain(UnitSize(e), ws)
    ensures RightFor(UnitSize(e), e, ws)
  {
    hide Utf8Of, Ucs2Chars, Ucs4Chars, Utf16Chars, Utf32Chars, EncodeAll, Unwritable;
    var cs := AsCodes(ws);
    assert OctetsRead(UnitSize(e), e, ws) == Stored(UnitSize(e), ws);
    match e {
      case UCS2 => PlainUnits16(cs);
      case UCS4 => PlainUnits32(cs);
      case UTF16 => PlainUnits16(cs);
      case UTF32 => PlainUnits32(cs);
    }
  }

  lemma PlainUnits32(cs: seq<Code>)
    requires Plain(4, cs)
    ensures Ucs4Chars(Pack32All(cs)) == cs && !Unwritable(cs) && Utf8Of(cs) == EncodeAll(cs)
    ensures Utf32Chars(Pack32All(cs)) == Reading(cs, false)
  {
    hide Ucs4Chars, EncodeAll, Pack32All, Unwritable, Utf8Of;
    CharsOfPack32(cs);
    SanitizeKeeps(cs);
    ReadUtf32Keeps(cs);
  }

  lemma PlainUnits16(cs: seq<Code>)
    requires Plain(2, cs)
    ensures Ucs2Chars(Pack16All(Units(cs))) == cs && !Unwritable(cs) && Utf8Of(cs) == EncodeAll(cs)
    ensures Utf16Chars(Pack16All(Units(cs)), AS_WRITTEN) == Reading(cs, false)
  {
    hide EncodeAll, Pack16All, Unwritable, Utf8Of, AfterMark16, ReadUtf16, Units16;
    CharsOfPack16(Units(cs));
    SanitizeKeeps(cs);
    ReadUtf16Of(cs);
    OneUnitEach(cs);
    assert RepairAll(cs, UCS2_LIMIT) == cs;
  }

  lemma {:induction false} OneUnitEach(cs: seq<Code>)
    requires Fits(2, cs)
    ensures !TooBig(cs, UTF32_LIMIT) && Utf16Of(cs) == cs
  {
    if cs != [] {
      OneUnitEach(cs[1..]);
    }
  }

  /** "hello" in wide characters. */
  const HELLO: seq<UInt32> := [0x68, 0x65, 0x6c, 0x6c, 0x6f]

  lemma HelloIsPlain()
    ensures Plain(2, HELLO) && Plain(4, HELLO)
  {
  }

  /** The low and the high half of each wide character. */
  function Halves(ws: seq<UInt32>): (us: seq<UInt16>)
    ensures |us| == 2 * |ws|
  {
    if ws == [] then [] else [ws[0] % 0x1_0000, ws[0] / 0x1_0000] + Halves(ws[1..])
  }

  lemma {:induction false} StoredAsHalves(ws: seq<UInt32>)
    ensures Pack32All(ws) == Pack16All(Halves(ws))
  {
    if ws != [] {
      StoredAsHalves(ws[1..]);
      Pack16Append([ws[0] % 0x1_0000, ws[0] / 0x1_0000], Halves(ws[1..]));
      OneAsHalves(ws[0]);
    }
  }

  lemma OneAsHalves(w: UInt32)
    ensures Pack32(w) == Pack16All([w % 0x1_0000, w / 0x1_0000])
  {
    var lo: UInt16, hi: UInt16 := w % 0x1_0000, w / 0x1_0000;
    assert w == hi * 0x1_0000 + lo;
    assert w / 0x100 == hi * 0x100 + lo / 0x100;
    TwoPacked(lo, hi);
  }

  lemma TwoPacked(lo: UInt16, hi: UInt16)
    ensures Pack16All([lo, hi]) == Pack16(lo) + Pack16(hi)
  {
    hide Pack16;
    assert [lo, hi][1..] == [hi] && [hi][1..] == [];
  }

  lemma PackedPrefix(us: seq<UInt16>, n: nat)
    requires n <= |us|
    ensures Pack16All(us)[..2 * n] == Pack16All(us[..n])
  {
    hide Pack16All;
    assert us == us[..n] + us[n..];
    Pack16Append(us[..n], us[n..]);
  }

  /** Where wchar_t has four octets, a 16-bit request reads each wide character of the first
    * half of the string as two units, and nothing of the second half. */
  lemma NarrowRequestReads(e: WideEncoding, ws: seq<UInt32>)
    requires UnitSize(e) == 2
    ensures OctetsRead(4, e, ws) == Pack16All(Halves(ws)[..|ws|])
  {
    hide Pack16All, Pack32All, Halves;
    StoredAsHalves(ws);
    PackedPrefix(Halves(ws), |ws|);
  }

  /** So "hello" reads as "h", "e" and half of an "l", with nulls in between. */
  lemma HelloAsUcs2(e: WideEncoding)
    requires UnitSize(e) == 2
    ensures TextFrom(e, OctetsRead(4, e, HELLO)) == Text([0x68, 0, 0x65, 0, 0x6c], false)
  {
    hide Pack16All, Utf16Chars, Ucs2Chars, EncodeAll, OctetsRead, Unwritable, Utf8Of;
    var us: seq<UInt16> := [0x68, 0, 0x65, 0, 0x6c];
    NarrowRequestReads(e, HELLO);
    HelloHalves();
    PlainUnits16(us);
    assert Units(us) == us;
    Ascii(us);
  }

  lemma HelloHalves()
    ensures Halves(HELLO)[..5] == [0x68, 0, 0x65, 0, 0x6c]
  {
    assert Halves(HELLO)[..2] == [0x68, 0];
    assert Halves(HELLO[1..])[..2] == [0x65, 0];
    assert Halves(HELLO[1..][1..])[..1] == [0x6c];
  }

  lemma {:induction false} Ascii(cs: seq<Code>)
    requires forall i :: 0 <= i < |cs| ==> cs[i] < 0x80
    ensures EncodeAll(cs) == cs
  {
    if cs != [] {
      Ascii(cs[1..]);
    }
  }

  lemma HelloGoesWrong(width: nat, e: WideEncoding)
    requires (width == 2 || width == 4) && UnitSize(e) != width && Plain(width, HELLO)
    ensures !RightFor(width, e, HELLO)
  {
    if width == 4 {
      HelloAsUcs2(e);
      Ascii(AsCodes(HELLO));
    }
  }

  ghost predicate AsNative(p: Platform, e: WideEncoding, ws: seq<UInt32>)
    requires Consistent(p) && Fits(p.width, ws)
  {
    ReadsInside(p.width, e, ws) &&
    TextFrom(e, OctetsRead(p.width, e, ws)) == TextFrom(p.native, OctetsRead(p.width, p.native, ws))
  }

  /** A requested encoding gives what the platform's own gives for every wide string, malformed
    * ones included, if and only if it is the platform's own. */
  lemma RequestIsNativeIff(p: Platform, e: WideEncoding)
    requires Consistent(p)
    ensures (forall ws :: Fits(p.width, ws) ==> AsNative(p, e, ws)) <==> e == p.native
  {
    hide AsNative;
    if e == p.native {
      forall ws | Fits(p.width, ws) ensures AsNative(p, e, ws) {
        OwnIsNative(p, ws);
      }
    } else if UnitSize(e) != p.width {
      HelloIsPlain();
      HelloGoesWrong(p.width, e);
      SameSizeIsRight(p.native, HELLO);
      NotRightNotNative(p, e, HELLO);
    } else if p.width == 2 {
      HighAloneDiffers(p, e);
    } else {
      TooBigDiffers(p, e);
    }
  }

  lemma OwnIsNative(p: Platform, ws: seq<UInt32>)
    requires Consistent(p) && Fits(p.width, ws)
    ensures AsNative(p, p.native, ws)
  {
  }

  lemma NotRightNotNative(p: Platform, e: WideEncoding, ws: seq<UInt32>)
    requires Consistent(p) && Plain(p.width, ws)
    requires RightFor(p.width, p.native, ws) && !RightFor(p.width, e, ws)
    ensures Fits(p.width, ws) && !AsNative(p, e, ws)
  {
  }

  /** A high surrogate before a letter: UCS-2 replaces it alone, UTF-16 takes the letter for its
    * second unit. */
  lemma HighAloneDiffers(p: Platform, e: WideEncoding)
    requires Consistent(p) && p.width == 2 == UnitSize(e) && e != p.native
    ensures Fits(2, [0xd800, 0x41]) && !AsNative(p, e, [0xd800, 0x41])
  {
    hide EncodeAll, DecodeAll, Pack16All;
    var us: seq<UInt16> := [0xd800, 0x41];
    var data := Pack16All(us);
    assert OctetsRead(2, e, us) == data && OctetsRead(2, p.native, us) == data by {
      assert Units(us) == us && Stored(2, us) == data;
    }
    HighAlone();
    DecodeAllOfEncodeAll([REPLACEMENT, 0x41]);
    DecodeAllOfEncodeAll([REPLACEMENT]);
    assert |[REPLACEMENT, 0x41]| != |[REPLACEMENT]|;
  }

  lemma HighAlone()
    ensures Utf8Of(Ucs2Chars(Pack16All([0xd800, 0x41]))) == EncodeAll([REPLACEMENT, 0x41])
    ensures Utf8Of(Utf16Chars(Pack16All([0xd800, 0x41]), AS_WRITTEN).cs) == EncodeAll([REPLACEMENT])
  {
    hide EncodeAll, Pack16All, Units16, AfterMark16;
    var us: seq<UInt16> := [0xd800, 0x41];
    CharsOfPack16(us);
    Units16OfPack(us);
    assert SanitizeAll(us) == [REPLACEMENT, 0x41];
    assert us[2..] == [];
    assert ReadUtf16(us, AS_WRITTEN).cs == [REPLACEMENT];
    assert SanitizeAll([REPLACEMENT]) == [REPLACEMENT];
  }

  /** 0x110000: UCS-4 writes it, UTF-32 replaces and reports it. */
  lemma TooBigDiffers(p: Platform, e: WideEncoding)
    requires Consistent(p) && p.width == 4 == UnitSize(e) && e != p.native
    ensures !AsNative(p, e, [0x11_0000])
  {
    hide EncodeAll, Pack32All;
    var cs: seq<Code> := [0x11_0000];
    CharsOfPack32(cs);
    SanitizeKeeps(cs);
    assert OctetsRead(4, e, cs) == Pack32All(cs) && OctetsRead(4, p.native, cs) == Pack32All(cs);
  }

  /** A locale whose two functions undo each other, with the nul and the question mark of ASCII. */
  ghost predicate Faithful(l: Locale) {
    && Sound(l)
    && l.toMb(0) == Some([0]) && (forall rest :: l.fromMb([0] + rest) == Nul)
    && l.toMb(0x3f) == Some([QUESTION])
    && (forall c, rest :: c != 0 && l.toMb(c).Some? ==>
         l.fromMb(l.toMb(c).value + rest) == Wide(c, |l.toMb(c).value|))
  }

  /** The wide characters with a question mark for each that the locale does not have. */
  function Marked(l: Locale, ws: seq<UInt32>): (r: seq<UInt32>)
    ensures |r| == |ws|
    ensures forall i :: 0 <= i < |ws| ==> r[i] == if l.toMb(ws[i]).None? then 0x3f else ws[i]
  {
    if ws == [] then [] else [if l.toMb(ws[0]).None? then 0x3f else ws[0]] + Marked(l, ws[1..])
  }

  /** Reading the text written returns the wide characters, those marked that were not there. */
  lemma {:induction false} TextReadsBack(l: Locale, ws: seq<UInt32>)
    requires Faithful(l)
    ensures WidesOf(l, TextOf(l, ws)) == Wides(Marked(l, ws), false)
  {
    assert TextOf(l, ws) == OctetsAll(l, ws) + [];
    if ws != [] {
      TextReadsBack(l, ws[1..]);
      var first, rest := Octets(l, ws[0]), TextOf(l, ws[1..]);
      assert TextOf(l, ws) == first + rest;
      assert (first + rest)[|first|..] == rest;
      WidesStep(l, first + rest);
    }
  }

  lemma MarkedIffUnencodable(l: Locale, ws: seq<UInt32>)
    requires l.toMb(0x3f).Some?
    ensures Marked(l, ws) == ws <==> !Unencodable(l, ws)
  {
    if Unencodable(l, ws) {
      var i :| 0 <= i < |ws| && l.toMb(ws[i]).None?;
      assert Marked(l, ws)[i] != ws[i];
    }
  }

  /** The limit beyond which a character does not survive the way there and back: for UTF-16 it
    * is that of the code as written, which joins no pairs. */
  function BackLimit(e: WideEncoding): int {
    if e == UTF16 then UCS2_LIMIT else Limit(e)
  }

  lemma WideFits(e: WideEncoding, s: seq<byte>)
    ensures Fits(UnitSize(e), WideOf(e, s))
    ensures OctetsRead(UnitSize(e), e, WideOf(e, s)) ==
      (match e case UCS2 => Utf8ToUcs2(s) case UCS4 => Utf8To32(s, UCS4_LIMIT)
               case UTF16 => Utf8ToUtf16(s) case UTF32 => Utf8To32(s, UTF32_LIMIT))
  {
    hide DecodeAll, WideOf, Utf16Of, Pack16All, Pack32All;
    WideOfIs(e, s);
    assert OctetsRead(UnitSize(e), e, WideOf(e, s)) == Stored(UnitSize(e), WideOf(e, s));
  }

  /** Characters stored one to a unit, read back. */
  lemma ReadBack(e: WideEncoding, cs: seq<Code>)
    requires e != UTF16 && AllCharacters(cs) && !TooBig(cs, Limit(e))
    ensures Fits(UnitSize(e), cs)
    ensures TextFrom(e, OctetsRead(UnitSize(e), e, cs)) == Text(EncodeAll(WithoutMark(cs)), false)
  {
    hide EncodeAll, Pack16All, Pack32All, Unwritable, Utf8Of, ReadUtf32, AfterMark16, AfterMark32;
    assert Fits(UnitSize(e), cs);
    assert OctetsRead(UnitSize(e), e, cs) == Stored(UnitSize(e), cs);
    SanitizeKeeps(WithoutMark(cs));
    match e {
      case UCS2 => CharsOfPack16(Units(cs));
      case UCS4 => CharsOfPack32(cs);
      case UTF32 =>
        CharsOfPack32(cs);
        ReadUtf32Keeps(WithoutMark(cs));
    }
  }

  /** Units of UTF-16 in which nothing is U+FFFE, read back as the code does it. */
  lemma ReadBack16(us: seq<UInt16>)
    requires 0xfffe !in us
    ensures TextFrom(UTF16, OctetsRead(2, UTF16, us)) ==
      Text(Utf8Of(ReadUtf16(AfterMark(us), AS_WRITTEN).cs), AnySurrogate(us))
  {
    hide EncodeAll, Pack16All, Utf8Of, ReadUtf16, AfterMark16, Units16;
    assert Units(us) == us && OctetsRead(2, UTF16, us) == Stored(2, us);
    CharsOfPack16(us);
    AsWrittenErrsIff(AfterMark(us));
    if us != [] {
      AnySurrogateFrom(us, 1);
    }
  }

  function AfterMark(us: seq<UInt16>): seq<UInt16> {
    if us != [] && us[0] == 0xfeff then us[1..] else us
  }

  /** What is read as written has no surrogate, nothing beyond 16 bits, and nothing that was not
    * there but U+FFFD. */
  lemma {:induction false} ReadsSmall(us: seq<UInt16>)
    requires 0xfffe !in us && 0xffff !in us
    ensures var cs := ReadUtf16(us, AS_WRITTEN).cs;
      AllCharacters(cs) && !TooBig(cs, UCS2_LIMIT) && |cs| <= |us|
    decreases |us|
  {
    if us != [] {
      var step := Next16(us, AS_WRITTEN);
      NextIsSmall(us);
      ReadsSmall(us[step.used..]);
    }
  }

  lemma NextIsSmall(us: seq<UInt16>)
    requires us != [] && us[0] != 0xfffe && us[0] != 0xffff
    ensures IsCharacter(Next16(us, AS_WRITTEN).c) && Next16(us, AS_WRITTEN).c < UCS2_LIMIT
  {
  }

  /** Marked wide characters are never the spelling of the input. */
  lemma MarkedDiffer(l: Locale, e: WideEncoding, s: seq<byte>, cs: seq<Code>)
    requires e != UTF16 && l.toMb(0x3f).Some?
    requires cs == Marked(l, WideOf(e, s)) && Unencodable(l, WideOf(e, s))
    requires AllCharacters(cs) && !TooBig(cs, Limit(e))
    ensures EncodeAll(WithoutMark(cs)) != s
  {
    hide WideOf, DecodeAll, EncodeAll, Unencodable;
    WideOfIs(e, s);
    MarkedIffUnencodable(l, WideOf(e, s));
    EncodesExactly(WithoutMark(cs), s);
    if DecodeAll(s) == WithoutMark(cs) {
      assert |WithoutMark(cs)| == |cs|;
      RepairKeeps(cs, Limit(e));
    }
  }

  lemma RepairKeeps(cs: seq<Code>, limit: int)
    requires AllCharacters(cs) && !TooBig(cs, limit)
    ensures RepairAll(cs, limit) == cs
  {
  }

  lemma MarkedDiffer16(l: Locale, s: seq<byte>, us: seq<UInt16>)
    requires l.toMb(0x3f).Some?
    requires us == Marked(l, WideOf(UTF16, s)) && Unencodable(l, WideOf(UTF16, s))
    requires 0xfffe !in us && 0xffff !in us
    ensures Utf8Of(ReadUtf16(AfterMark(us), AS_WRITTEN).cs) != s
  {
    hide WideOf, DecodeAll, EncodeAll, Unencodable, Utf16Of, ReadUtf16, TooBig;
    var x := ReadUtf16(AfterMark(us), AS_WRITTEN).cs;
    WideOfIs(UTF16, s);
    MarkedIffUnencodable(l, WideOf(UTF16, s));
    ReadsSmall(AfterMark(us));
    SanitizeKeeps(x);
    EncodesExactly(x, s);
    ReadsItself(us);
    if DecodeAll(s) == x {
      SmallIsPlain(x);
      RepairKeeps(x, UTF32_LIMIT);
      OneUnitEach(x);
    }
  }

  lemma ReadsItself(us: seq<UInt16>)
    requires 0xfffe !in us && 0xffff !in us
    ensures (forall i :: 0 <= i < |us| ==> !IsSurrogate(us[i])) ==> ReadUtf16(us, AS_WRITTEN).cs == us
  {
    if forall i :: 0 <= i < |us| ==> !IsSurrogate(us[i]) {
      OneUnitEach(us);
      ReadUtf16Of(us);
      SmallIsPlain(us);
      RepairKeeps(us, UCS2_LIMIT);
    }
  }

  lemma SmallIsPlain(cs: seq<Code>)
    ensures !TooBig(cs, UCS2_LIMIT) <==> Fits(2, cs)
    ensures !TooBig(cs, UCS2_LIMIT) ==> !TooBig(cs, UTF32_LIMIT)
  {
  }

  /** The wide characters of any input are characters, or for UTF-16 their halves. */
  lemma WideOfRange(l: Locale, e: WideEncoding, s: seq<byte>)
    ensures var ws := Marked(l, WideOf(e, s));
      && Fits(UnitSize(e), ws) && 0xfffe !in ws && 0xffff !in ws
      && (forall i :: 0 <= i < |ws| ==> ws[i] < Limit(e))
      && (e != UTF16 ==> forall i :: 0 <= i < |ws| ==> !IsSurrogate(ws[i]))
  {
    hide WideOf, DecodeAll, Utf16Of;
    WideOfIs(e, s);
    var ds := RepairAll(DecodeAll(s), Limit(e));
    RepairedAreCharacters(s, Limit(e));
    if e == UTF16 {
      UnitsInRange(ds);
    }
  }

  lemma {:induction false} UnitsInRange(ds: seq<Code>)
    requires AllCharacters(ds) && !TooBig(ds, UTF32_LIMIT)
    ensures forall i :: 0 <= i < |Utf16Of(ds)| ==> Utf16Of(ds)[i] != 0xfffe && Utf16Of(ds)[i] != 0xffff
  {
    if ds != [] {
      UnitsInRange(ds[1..]);
    }
  }

  /** A half of a UTF-16 pair that the locale has octets for. */
  predicate HalfReadBack(l: Locale, ws: seq<UInt32>) {
    exists i :: 0 <= i < |ws| && IsSurrogate(ws[i]) && l.toMb(ws[i]).Some?
  }

  lemma HalvesAreMarked(l: Locale, ws: seq<UInt32>, us: seq<UInt16>)
    requires us == Marked(l, ws)
    ensures AnySurrogate(us) <==> HalfReadBack(l, ws)
  {
    if AnySurrogate(us) {
      var i :| 0 <= i < |us| && IsSurrogate(us[i]);
      assert us[i] == ws[i];
    }
    if HalfReadBack(l, ws) {
      var i :| 0 <= i < |ws| && IsSurrogate(ws[i]) && l.toMb(ws[i]).Some?;
      assert IsSurrogate(us[i]);
    }
  }

  /** To the locale and back on any platform, with any faithful locale: the input comes back
    * exactly when it is well formed, does not start with U+FEFF, has no character beyond the
    * limit and none that the locale lacks; the only error is that of UTF-16 pairs. */
  lemma LocaleRoundTrip(l: Locale, e: WideEncoding, s: seq<byte>)
    requires Faithful(l)
    ensures var w := WidesOf(l, TextOf(l, WideOf(e, s)));
      && !w.errors && Fits(UnitSize(e), w.ws)
      && var t := TextFrom(e, OctetsRead(UnitSize(e), e, w.ws));
        && (t.utf8 == s <==>
             && WellFormed(s) && !StartsWithMark(s) && !TooBig(DecodeAll(s), BackLimit(e))
             && !Unencodable(l, WideOf(e, s)))
        && (t.errors <==> HalfReadBack(l, WideOf(e, s)))
  {
    hide WideOf, DecodeAll, Faithful, TextOf, WidesOf, OctetsRead, TextFrom, EncodeAll, StartsWithMark, Unencodable;
    hide HalfReadBack;
    var ws := Marked(l, WideOf(e, s));
    TextReadsBack(l, WideOf(e, s));
    WideOfRange(l, e, s);
    QuestionMarkIsThere(l);
    MarkedIffUnencodable(l, WideOf(e, s));
    ErrorsComeBack(l, e, s);
    if Unencodable(l, WideOf(e, s)) {
      LackingIsLost(l, e, s);
    } else {
      NothingLackingReturns(e, s);
    }
  }

  lemma QuestionMarkIsThere(l: Locale)
    requires Faithful(l)
    ensures l.toMb(0x3f).Some?
  {
  }

  function Back(l: Locale, e: WideEncoding, s: seq<byte>): Text
    requires Fits(UnitSize(e), Marked(l, WideOf(e, s)))
  {
    TextFrom(e, OctetsRead(UnitSize(e), e, Marked(l, WideOf(e, s))))
  }

  lemma ErrorsComeBack(l: Locale, e: WideEncoding, s: seq<byte>)
    ensures Fits(UnitSize(e), Marked(l, WideOf(e, s)))
    ensures Back(l, e, s).errors <==> HalfReadBack(l, WideOf(e, s))
  {
    hide WideOf, OctetsRead, TextFrom, EncodeAll, Utf8Of, ReadUtf16;
    WideOfRange(l, e, s);
    var ws := Marked(l, WideOf(e, s));
    if e == UTF16 {
      ReadBack16(ws);
      HalvesAreMarked(l, WideOf(e, s), ws);
    } else {
      ReadBack(e, ws);
    }
  }

  lemma LackingIsLost(l: Locale, e: WideEncoding, s: seq<byte>)
    requires l.toMb(0x3f).Some? && Unencodable(l, WideOf(e, s))
    ensures Fits(UnitSize(e), Marked(l, WideOf(e, s)))
    ensures Back(l, e, s).utf8 != s
  {
    hide WideOf, OctetsRead, TextFrom, EncodeAll, Utf8Of, ReadUtf16, Unencodable;
    WideOfRange(l, e, s);
    var ws := Marked(l, WideOf(e, s));
    if e == UTF16 {
      ReadBack16(ws);
      MarkedDiffer16(l, s, ws);
    } else {
      ReadBack(e, ws);
      MarkedDiffer(l, e, s, ws);
    }
  }

  lemma NothingLackingReturns(e: WideEncoding, s: seq<byte>)
    ensures Fits(UnitSize(e), WideOf(e, s))
    ensures TextFrom(e, OctetsRead(UnitSize(e), e, WideOf(e, s))).utf8 == s <==>
      WellFormed(s) && !StartsWithMark(s) && !TooBig(DecodeAll(s), BackLimit(e))
  {
    hide WideOf, DecodeAll, OctetsRead, RepairAll;
    hide Utf8ToUcs2, Utf8To32, Utf8ToUtf16, Ucs2Chars, Ucs4Chars, Utf16Chars, Utf32Chars;
    hide Utf8Of, EncodeAll, Unwritable, StartsWithMark;
    WideFits(e, s);
    match e {
      case UCS2 => Ucs2RoundTrip(s);
      case UCS4 => Ucs4RoundTrip(s);
      case UTF16 => Utf16RoundTripAsWritten(s);
      case UTF32 => Utf32RoundTrip(s);
    }
  }

  /** "e" with an acute accent, where the locale lacks it, becomes a question mark for good. */
  lemma MissingCharacterIsLost(l: Locale, e: WideEncoding)
    requires Faithful(l) && l.toMb(0xe9).None?
    ensures WideOf(e, [0xc3, 0xa9]) == [0xe9] && TextOf(l, [0xe9]) == [QUESTION]
    ensures WidesOf(l, TextOf(l, [0xe9])) == Wides([0x3f], false)
  {
    hide WideOf, DecodeAll, Decode, Encode;
    assert [0xc3, 0xa9] == Encode(0xe9) by { EAcute(); }
    DecodeOfEncode(0xe9, []);
    DecodeAllOfEncodeAll([0xe9]);
    assert EncodeAll([0xe9]) == Encode(0xe9);
    WideOfIs(e, [0xc3, 0xa9]);
    assert RepairAll([0xe9], Limit(e)) == [0xe9] && Utf16Of([0xe9]) == [0xe9];
    assert OctetsAll(l, [0xe9]) == [QUESTION];
    TextReadsBack(l, [0xe9]);
    assert Marked(l, [0xe9]) == [0x3f];
  }

  lemma EAcute()
    ensures Encode(0xe9) == [0xc3, 0xa9]
  {
    assert Groups(0xe9, 1) == [0xa9];
  }
}
