/**
  * The string converters of src/lib/base/Unicode.cpp on a little-endian host:
  * UTF-8 to and from UCS-2, UCS-4, UTF-16 (sections 2.1 and 2.2 of RFC 2781)
  * and UTF-32, with byte order marks and the error flag.
  *
  * Each converter is a loop proved equal to a function of its input; the lemmas
  * then say exactly when a conversion there and back returns the input.
  */
module Unicode {
  import opened Utf8

  type UInt16 = u: int | 0 <= u < 0x1_0000

  // ------------------------------------------------- characters and the limit

  const UCS2_LIMIT := 0x0001_0000
  const UTF32_LIMIT := 0x0011_0000
  const UCS4_LIMIT := 0x8000_0000

  /** What is stored for a decoded character when only those below `limit` fit. */
  function Repair(c: Code, limit: int): Code {
    if c == INVALID || c >= limit then REPLACEMENT else c
  }

  function RepairAll(cs: seq<Code>, limit: int): (r: seq<Code>)
    ensures |r| == |cs|
    ensures forall i :: 0 <= i < |cs| ==> r[i] == Repair(cs[i], limit)
    ensures limit > REPLACEMENT ==> !TooBig(r, limit)
  {
    if cs == [] then [] else [Repair(cs[0], limit)] + RepairAll(cs[1..], limit)
  }

  /** Some character of `cs` does not fit below `limit`. */
  predicate TooBig(cs: seq<UInt32>, limit: int) {
    exists i :: 0 <= i < |cs| && cs[i] >= limit
  }

  /** Some character of `cs` has to be replaced by `toUTF8`. */
  predicate Unwritable(cs: seq<UInt32>) {
    exists i :: 0 <= i < |cs| && cs[i] != Sanitize(cs[i])
  }

  function SanitizeAll(cs: seq<UInt32>): (r: seq<Code>)
    ensures |r| == |cs|
    ensures forall i :: 0 <= i < |cs| ==> r[i] == Sanitize(cs[i])
  {
    if cs == [] then [] else [Sanitize(cs[0])] + SanitizeAll(cs[1..])
  }

  // ------------------------------------------------------ units as host octets

  /** A UInt16 or UInt32 as the octets the host stores for it. */
  function Pack16(u: UInt16): (s: seq<byte>) {
    [u % 0x100, u / 0x100]
  }

  function Pack32(u: UInt32): (s: seq<byte>) {
    [u % 0x100, u / 0x100 % 0x100, u / 0x1_0000 % 0x100, u / 0x100_0000]
  }

  function Pack16All(us: seq<UInt16>): (s: seq<byte>)
    ensures |s| == 2 * |us|
  {
    if us == [] then [] else Pack16(us[0]) + Pack16All(us[1..])
  }

  function Pack32All(us: seq<UInt32>): (s: seq<byte>)
    ensures |s| == 4 * |us|
  {
    if us == [] then [] else Pack32(us[0]) + Pack32All(us[1..])
  }

  /** `decode16`: the union read, with the octets exchanged first when swapped. */
  function Decode16(n: seq<byte>, byteSwapped: bool): UInt16
    requires |n| >= 2
  {
    var n0: nat, n1: nat := n[0], n[1];
    if byteSwapped then n1 + n0 * 0x100 else n0 + n1 * 0x100
  }

  /** `decode32`. */
  function Decode32(n: seq<byte>, byteSwapped: bool): UInt32
    requires |n| >= 4
  {
    var n0: nat, n1: nat, n2: nat, n3: nat := n[0], n[1], n[2], n[3];
    if byteSwapped then
      n3 + n2 * 0x100 + n1 * 0x1_0000 + n0 * 0x100_0000
    else
      n0 + n1 * 0x100 + n2 * 0x1_0000 + n3 * 0x100_0000
  }

  /** The whole units of `data`; an incomplete unit at the end is ignored. */
  function Units16(data: seq<byte>, byteSwapped: bool): (us: seq<UInt16>)
    ensures |us| == |data| / 2
  {
    if |data| < 2 then [] else [Decode16(data, byteSwapped)] + Units16(data[2..], byteSwapped)
  }

  function Units32(data: seq<byte>, byteSwapped: bool): (us: seq<UInt32>)
    ensures |us| == |data| / 4
  {
    if |data| < 4 then [] else [Decode32(data, byteSwapped)] + Units32(data[4..], byteSwapped)
  }

  // ------------------------------------------------------------ byte order mark

  /** The octets after the byte order mark, and whether the mark was swapped. */
  datatype Body = Body(octets: seq<byte>, swapped: bool)

  function AfterMark16(data: seq<byte>): Body {
    if |data| < 2 then Body(data, false)
    else if Decode16(data, false) == 0xfeff then Body(data[2..], false)
    else if Decode16(data, false) == 0xfffe then Body(data[2..], true)
    else Body(data, false)
  }

  function AfterMark32(data: seq<byte>): Body {
    if |data| < 4 then Body(data, false)
    else if Decode32(data, false) == 0x0000_feff then Body(data[4..], false)
    else if Decode32(data, false) == 0x0000_fffe then Body(data[4..], true)
    else Body(data, false)
  }

  // --------------------------------------------------------------------- UTF-16

  predicate IsHigh(u: int) { 0xd800 <= u <= 0xdbff }

  predicate IsLow(u: int) { 0xdc00 <= u <= 0xdfff }

  /** Section 2.1 of RFC 2781; `cs` holds what is left after repair. */
  function Utf16Of(cs: seq<Code>): (us: seq<UInt16>)
    requires !TooBig(cs, UTF32_LIMIT)
  {
    if cs == [] then []
    else
      var rest := Utf16Of(cs[1..]);
      if cs[0] < UCS2_LIMIT then [cs[0]] + rest
      else [(cs[0] - 0x1_0000) / 0x400 + 0xd800, (cs[0] - 0x1_0000) % 0x400 + 0xdc00] + rest
  }

  /** Every surrogate belongs to a pair. */
  predicate WellFormed16(us: seq<UInt16>) {
    us == [] ||
    (if IsHigh(us[0]) then |us| >= 2 && IsLow(us[1]) && WellFormed16(us[2..])
     else !IsLow(us[0]) && WellFormed16(us[1..]))
  }

  function Join(c: UInt16, c2: UInt16): Code
    requires IsHigh(c) && IsLow(c2)
  {
    (c - 0xd800) * 0x400 + (c2 - 0xdc00) + 0x1_0000
  }

  /** One character read from UTF-16, whether it was an error, and how many units it took. */
  datatype Step16 = Step16(c: Code, error: bool, used: nat)

  /** The body of the loop of `doUTF16ToUTF8`. `second` is the distance at which the
    * second unit of a pair is read: the source reads it at distance 0, before it moves
    * its pointer; section 2.2 of RFC 2781 asks for distance 1. */
  function Next16(us: seq<UInt16>, second: nat): (step: Step16)
    requires us != [] && second <= 1
    ensures 1 <= step.used <= |us|
    ensures Sanitize(step.c) == step.c
  {
    if !IsSurrogate(us[0]) then Step16(us[0], false, 1)
    else if |us| == 1 then Step16(REPLACEMENT, true, 1)
    else if IsHigh(us[0]) then
      if IsLow(us[second]) then Step16(Join(us[0], us[second]), false, 2) else Step16(REPLACEMENT, true, 2)
    else Step16(REPLACEMENT, true, 1)
  }

  /** The characters a reader found and whether it raised the error flag. */
  datatype Reading = Reading(cs: seq<Code>, errors: bool)

  function ReadUtf16(us: seq<UInt16>, second: nat): (r: Reading)
    requires second <= 1
    decreases |us|
  {
    if us == [] then Reading([], false) else
      var step := Next16(us, second);
      var rest := ReadUtf16(us[step.used..], second);
      Reading([step.c] + rest.cs, step.error || rest.errors)
  }

  const AS_WRITTEN := 0
  const AS_INTENDED := 1

  // --------------------------------------- the conversions as functions of the input

  function Utf8ToUcs2(s: seq<byte>): (d: seq<byte>) {
    Pack16All(Narrow(RepairAll(DecodeAll(s), UCS2_LIMIT)))
  }

  function Narrow(cs: seq<Code>): (us: seq<UInt16>)
    requires !TooBig(cs, UCS2_LIMIT)
  {
    cs
  }

  /** UTF-8 to UCS-4 or to UTF-32, which differ in their limit. */
  function Utf8To32(s: seq<byte>, limit: int): (d: seq<byte>) {
    Pack32All(RepairAll(DecodeAll(s), limit))
  }

  function Utf8ToUtf16(s: seq<byte>): (d: seq<byte>) {
    Pack16All(Utf16Of(RepairAll(DecodeAll(s), UTF32_LIMIT)))
  }

  /** The characters read from UCS-2 data, before those that cannot be written are replaced. */
  function Ucs2Chars(data: seq<byte>): seq<UInt32> {
    var b := AfterMark16(data); Units16(b.octets, b.swapped)
  }

  function Ucs4Chars(data: seq<byte>): seq<UInt32> {
    var b := AfterMark32(data); Units32(b.octets, b.swapped)
  }

  function Utf16Chars(data: seq<byte>, second: nat): Reading
    requires second <= 1
  {
    var b := AfterMark16(data); ReadUtf16(Units16(b.octets, b.swapped), second)
  }

  /** UTF-32 units: those from 0x110000 on and those `toUTF8` refuses are replaced and reported. */
  function ReadUtf32(us: seq<UInt32>): (r: Reading) {
    if us == [] then Reading([], false) else
      var c: UInt32 := if us[0] >= UTF32_LIMIT then REPLACEMENT else us[0];
      var rest := ReadUtf32(us[1..]);
      Reading([Sanitize(c)] + rest.cs, us[0] != Sanitize(c) || rest.errors)
  }

  function Utf32Chars(data: seq<byte>): Reading {
    ReadUtf32(Ucs4Chars(data))
  }

  function Utf8Of(cs: seq<UInt32>): seq<byte> {
    EncodeAll(SanitizeAll(cs))
  }

  // ---------------------------------------------------------- the source's loops

  method IsUTF8(src: seq<byte>) returns (valid: bool)
    ensures valid <==> WellFormed(src)
  {
    var data := src;
    while data != []
      invariant WellFormed(src) <==> WellFormed(data)
      decreases |data|
    {
      var c, rest := FromUTF8(data);
      assert DecodeAll(data) == [c] + DecodeAll(rest);
      if c == INVALID {
        return false;
      }
      data := rest;
    }
    return true;
  }

  lemma OfNothing(limit: int)
    ensures !TooBig(DecodeAll([]), limit) && !TooBig([], limit) && !Unwritable([]) && Utf8Of([]) == []
    ensures ReadUtf32([]) == Reading([], false) && EncodeAll([]) == []
    ensures Utf8To32([], limit) == [] && Utf8ToUcs2([]) == [] && Utf8ToUtf16([]) == []
  {
  }

  lemma TooBigCons(c: UInt32, cs: seq<UInt32>, limit: int)
    ensures TooBig([c] + cs, limit) <==> c >= limit || TooBig(cs, limit)
  {
    if TooBig(cs, limit) {
      var i :| 0 <= i < |cs| && cs[i] >= limit;
      assert ([c] + cs)[i + 1] >= limit;
    }
    assert ([c] + cs)[0] == c;
  }

  lemma UnwritableCons(c: UInt32, cs: seq<UInt32>)
    ensures Unwritable([c] + cs) <==> c != Sanitize(c) || Unwritable(cs)
    ensures Utf8Of([c] + cs) == Encode(Sanitize(c)) + Utf8Of(cs)
  {
    hide Encode, Sanitize;
    if Unwritable(cs) {
      var i :| 0 <= i < |cs| && cs[i] != Sanitize(cs[i]);
      assert ([c] + cs)[i + 1] != Sanitize(([c] + cs)[i + 1]);
    }
    assert ([c] + cs)[0] == c;
  }

  /** The first character of `data` reports an error, or one of the others does. */
  lemma TooBigStep(data: seq<byte>, limit: int)
    requires data != []
    ensures TooBig(DecodeAll(data), limit) <==>
      Decode(data).c >= limit || TooBig(DecodeAll(data[Decode(data).used..]), limit)
  {
    hide Decode, TooBig;
    var d := Decode(data);
    assert DecodeAll(data) == [d.c] + DecodeAll(data[d.used..]);
    TooBigCons(d.c, DecodeAll(data[d.used..]), limit);
  }

  lemma Utf8To32Step(data: seq<byte>, limit: int)
    requires data != []
    ensures Utf8To32(data, limit) == Pack32(Repair(Decode(data).c, limit)) + Utf8To32(data[Decode(data).used..], limit)
  {
    hide Decode, Pack32;
  }

  lemma Utf8ToUcs2Step(data: seq<byte>)
    requires data != []
    ensures Utf8ToUcs2(data) == Pack16(Repair(Decode(data).c, UCS2_LIMIT)) + Utf8ToUcs2(data[Decode(data).used..])
  {
    hide Decode, Pack16;
  }

  method UTF8ToUCS4(src: seq<byte>) returns (dst: seq<byte>, errors: bool)
    ensures dst == Utf8To32(src, UCS4_LIMIT)
    ensures !errors
  {
    hide Decode, DecodeAll, Pack32, Utf8To32;
    OfNothing(UCS4_LIMIT);
    errors := false;
    dst := [];
    var data := src;
    while data != []
      invariant dst + Utf8To32(data, UCS4_LIMIT) == Utf8To32(src, UCS4_LIMIT)
      decreases |data|
    {
      Utf8To32Step(data, UCS4_LIMIT);
      var c, rest := FromUTF8(data);
      if c == INVALID {
        c := REPLACEMENT;
      }
      dst := dst + Pack32(c);
      data := rest;
    }
  }

  method UTF8ToUTF32(src: seq<byte>) returns (dst: seq<byte>, errors: bool)
    ensures dst == Utf8To32(src, UTF32_LIMIT)
    ensures errors <==> TooBig(DecodeAll(src), UTF32_LIMIT)
  {
    hide Decode, DecodeAll, Pack32, Utf8To32, TooBig;
    OfNothing(UTF32_LIMIT);
    errors := false;
    dst := [];
    var data := src;
    while data != []
      invariant dst + Utf8To32(data, UTF32_LIMIT) == Utf8To32(src, UTF32_LIMIT)
      invariant errors || TooBig(DecodeAll(data), UTF32_LIMIT) <==> TooBig(DecodeAll(src), UTF32_LIMIT)
      decreases |data|
    {
      Utf8To32Step(data, UTF32_LIMIT);
      TooBigStep(data, UTF32_LIMIT);
      var c, rest := FromUTF8(data);
      if c == INVALID {
        c := REPLACEMENT;
      } else if c >= 0x0011_0000 {
        errors := true;
        c := REPLACEMENT;
      }
      dst := dst + Pack32(c);
      data := rest;
    }
  }

  method UTF8ToUCS2(src: seq<byte>) returns (dst: seq<byte>, errors: bool)
    ensures dst == Utf8ToUcs2(src)
    ensures errors <==> TooBig(DecodeAll(src), UCS2_LIMIT)
  {
    hide Decode, DecodeAll, Pack16, Utf8ToUcs2, TooBig;
    OfNothing(UCS2_LIMIT);
    errors := false;
    dst := [];
    var data := src;
    while data != []
      invariant dst + Utf8ToUcs2(data) == Utf8ToUcs2(src)
      invariant errors || TooBig(DecodeAll(data), UCS2_LIMIT) <==> TooBig(DecodeAll(src), UCS2_LIMIT)
      decreases |data|
    {
      Utf8ToUcs2Step(data);
      TooBigStep(data, UCS2_LIMIT);
      var c, rest := FromUTF8(data);
      if c == INVALID {
        c := REPLACEMENT;
      } else if c >= 0x0001_0000 {
        errors := true;
        c := REPLACEMENT;
      }
      var ucs2: UInt16 := c;
      dst := dst + Pack16(ucs2);
      data := rest;
    }
  }

  lemma Utf16Cons(c: Code, cs: seq<Code>)
    requires c < UTF32_LIMIT && !TooBig(cs, UTF32_LIMIT)
    ensures !TooBig([c], UTF32_LIMIT) && !TooBig([c] + cs, UTF32_LIMIT)
    ensures Pack16All(Utf16Of([c] + cs)) == Pack16All(Utf16Of([c])) + Pack16All(Utf16Of(cs))
  {
    TooBigCons(c, cs, UTF32_LIMIT);
    Pack16Append(Utf16Of([c]), Utf16Of(cs));
    assert ([c] + cs)[1..] == cs && [c][1..] == [];
  }

  lemma {:induction false} Pack16Append(us: seq<UInt16>, vs: seq<UInt16>)
    ensures Pack16All(us + vs) == Pack16All(us) + Pack16All(vs)
  {
    hide Pack16;
    if us == [] {
      assert us + vs == vs;
    } else {
      Pack16Append(us[1..], vs);
      assert (us + vs)[1..] == us[1..] + vs;
      Associative(Pack16(us[0]), Pack16All(us[1..]), Pack16All(vs));
    }
  }

  lemma Associative(a: seq<byte>, b: seq<byte>, c: seq<byte>)
    ensures (a + b) + c == a + (b + c)
  {
  }

  /** The output step of `UTF8ToUTF16`: one unit, or the two halves of a pair. */
  method AppendUtf16(dst: seq<byte>, c: Code) returns (dst': seq<byte>)
    requires !TooBig([c], UTF32_LIMIT)
    ensures dst' == dst + Pack16All(Utf16Of([c]))
  {
    assert c == [c][0] && [c][1..] == [];
    if c < 0x0001_0000 {
      var ucs2: UInt16 := c;
      dst' := dst + Pack16(ucs2);
    } else {
      var d := c - 0x0001_0000;
      var utf16h := d / 0x400 + 0xd800;
      var utf16l := d % 0x400 + 0xdc00;
      assert Utf16Of([c]) == [utf16h, utf16l];
      assert Pack16All([utf16h, utf16l]) == Pack16(utf16h) + Pack16(utf16l);
      dst' := dst + Pack16(utf16h) + Pack16(utf16l);
    }
  }

  lemma Utf8ToUtf16Step(data: seq<byte>)
    requires data != []
    ensures var d := Decode(data);
      var c := Repair(d.c, UTF32_LIMIT);
      !TooBig([c], UTF32_LIMIT) && Utf8ToUtf16(data) == Pack16All(Utf16Of([c])) + Utf8ToUtf16(data[d.used..])
  {
    hide Decode;
    var d := Decode(data);
    var rest := DecodeAll(data[d.used..]);
    assert DecodeAll(data) == [d.c] + rest;
    assert RepairAll([d.c] + rest, UTF32_LIMIT) == [Repair(d.c, UTF32_LIMIT)] + RepairAll(rest, UTF32_LIMIT);
    Utf16Cons(Repair(d.c, UTF32_LIMIT), RepairAll(rest, UTF32_LIMIT));
  }

  method UTF8ToUTF16(src: seq<byte>) returns (dst: seq<byte>, errors: bool)
    ensures dst == Utf8ToUtf16(src)
    ensures errors <==> TooBig(DecodeAll(src), UTF32_LIMIT)
  {
    hide Decode, DecodeAll, TooBig, Utf8ToUtf16, Pack16All, Utf16Of;
    OfNothing(UTF32_LIMIT);
    errors := false;
    dst := [];
    var data := src;
    while data != []
      invariant dst + Utf8ToUtf16(data) == Utf8ToUtf16(src)
      invariant errors || TooBig(DecodeAll(data), UTF32_LIMIT) <==> TooBig(DecodeAll(src), UTF32_LIMIT)
      decreases |data|
    {
      Utf8ToUtf16Step(data);
      TooBigStep(data, UTF32_LIMIT);
      var c, rest := FromUTF8(data);
      if c == INVALID {
        c := REPLACEMENT;
      } else if c >= 0x0011_0000 {
        errors := true;
        c := REPLACEMENT;
      }
      dst := AppendUtf16(dst, c);
      data := rest;
    }
  }

  /** The prologue shared by the readers of 16-bit units: take a byte order mark for what it is. */
  method SkipMark16(src: seq<byte>) returns (data: seq<byte>, byteSwapped: bool)
    ensures Body(data, byteSwapped) == AfterMark16(src)
  {
    data, byteSwapped := src, false;
    if |src| / 2 >= 1 {
      var mark := Decode16(src, false);
      if mark == 0xfeff {
        data := data[2..];
      } else if mark == 0xfffe {
        byteSwapped := true;
        data := data[2..];
      }
    }
  }

  /** The prologue shared by the readers of 32-bit units: take a byte order mark for what it is. */
  method SkipMark32(src: seq<byte>) returns (data: seq<byte>, byteSwapped: bool)
    ensures Body(data, byteSwapped) == AfterMark32(src)
  {
    data, byteSwapped := src, false;
    if |src| / 4 >= 1 {
      var mark := Decode32(src, false);
      if mark == 0x0000_feff {
        data := data[4..];
      } else if mark == 0x0000_fffe {
        byteSwapped := true;
        data := data[4..];
      }
    }
  }

  /** `UCS2ToUTF8` and `doUCS2ToUTF8`. */
  method UCS2ToUTF8(src: seq<byte>) returns (dst: seq<byte>, errors: bool)
    ensures dst == Utf8Of(Ucs2Chars(src))
    ensures errors <==> Unwritable(Ucs2Chars(src))
  {
    hide Encode, Sanitize, Unwritable, TooBig, Utf8Of, Decode16, AfterMark16;
    OfNothing(UTF32_LIMIT);
    errors, dst := false, [];
    var data, byteSwapped := SkipMark16(src);
    var n := |data| / 2;
    while n > 0
      invariant n == |data| / 2
      invariant dst + Utf8Of(Units16(data, byteSwapped)) == Utf8Of(Ucs2Chars(src))
      invariant errors || Unwritable(Units16(data, byteSwapped)) <==> Unwritable(Ucs2Chars(src))
    {
      var c: UInt32 := Decode16(data, byteSwapped);
      UnwritableCons(c, Units16(data[2..], byteSwapped));
      dst, errors := ToUTF8(dst, c, errors);
      data, n := data[2..], n - 1;
    }
  }

  /** `UCS4ToUTF8` and `doUCS4ToUTF8`. */
  method UCS4ToUTF8(src: seq<byte>) returns (dst: seq<byte>, errors: bool)
    ensures dst == Utf8Of(Ucs4Chars(src))
    ensures errors <==> Unwritable(Ucs4Chars(src))
  {
    hide Encode, Sanitize, Unwritable, TooBig, Utf8Of, Decode32, AfterMark32;
    OfNothing(UTF32_LIMIT);
    errors, dst := false, [];
    var data, byteSwapped := SkipMark32(src);
    var n := |data| / 4;
    while n > 0
      invariant n == |data| / 4
      invariant dst + Utf8Of(Units32(data, byteSwapped)) == Utf8Of(Ucs4Chars(src))
      invariant errors || Unwritable(Units32(data, byteSwapped)) <==> Unwritable(Ucs4Chars(src))
    {
      var c := Decode32(data, byteSwapped);
      UnwritableCons(c, Units32(data[4..], byteSwapped));
      dst, errors := ToUTF8(dst, c, errors);
      data, n := data[4..], n - 1;
    }
  }

  lemma Units32Step(data: seq<byte>, byteSwapped: bool)
    requires |data| >= 4
    ensures Units32(data, byteSwapped) == [Decode32(data, byteSwapped)] + Units32(data[4..], byteSwapped)
  {
  }

  lemma ReadUtf32Cons(c: UInt32, us: seq<UInt32>)
    ensures var c' := if c >= UTF32_LIMIT then REPLACEMENT else c;
      && EncodeAll(ReadUtf32([c] + us).cs) == Encode(Sanitize(c')) + EncodeAll(ReadUtf32(us).cs)
      && (ReadUtf32([c] + us).errors <==> c != Sanitize(c') || ReadUtf32(us).errors)
  {
    hide Encode;
  }

  /** `UTF32ToUTF8` and `doUTF32ToUTF8`. */
  method UTF32ToUTF8(src: seq<byte>) returns (dst: seq<byte>, errors: bool)
    ensures dst == EncodeAll(Utf32Chars(src).cs)
    ensures errors <==> Utf32Chars(src).errors
  {
    hide Encode, EncodeAll, Decode32, Units32, AfterMark32, ReadUtf32;
    OfNothing(UTF32_LIMIT);
    errors, dst := false, [];
    var data, byteSwapped := SkipMark32(src);
    var n := |data| / 4;
    while n > 0
      invariant n == |data| / 4
      invariant dst + EncodeAll(ReadUtf32(Units32(data, byteSwapped)).cs) == EncodeAll(Utf32Chars(src).cs)
      invariant errors || ReadUtf32(Units32(data, byteSwapped)).errors <==> Utf32Chars(src).errors
    {
      Units32Step(data, byteSwapped);
      ReadUtf32Cons(Decode32(data, byteSwapped), Units32(data[4..], byteSwapped));
      var c := Decode32(data, byteSwapped);
      if c >= 0x0011_0000 {
        errors := true;
        c := REPLACEMENT;
      }
      dst, errors := ToUTF8(dst, c, errors);
      data, n := data[4..], n - 1;
    }
  }

  /** The branches of the loop of `doUTF16ToUTF8`: the character to write and the data left. */
  method ReadCharacter16(data: seq<byte>, byteSwapped: bool) returns (c: UInt32, error: bool, rest: seq<byte>)
    requires |data| >= 2
    ensures var step := Next16(Units16(data, byteSwapped), AS_WRITTEN);
      c == step.c && error == step.error && Units16(rest, byteSwapped) == Units16(data, byteSwapped)[step.used..]
    ensures |rest| < |data|
  {
    var n := |data| / 2;
    c, error, rest := Decode16(data, byteSwapped), false, data[2..];
    if c < 0x0000_d800 || c > 0x0000_dfff {
    } else if n == 1 {
      // missing second word
      c, error := REPLACEMENT, true;
    } else if c >= 0x0000_d800 && c <= 0x0000_dbff {
      var c2: UInt32 := Decode16(data, byteSwapped);
      rest := rest[2..];
      if c2 < 0x0000_dc00 || c2 > 0x0000_dfff {
        // high half not followed by a low half
        c, error := REPLACEMENT, true;
      } else {
        // the pair would be joined here, but `c2` is the high half `c` itself
        assert false;
      }
    } else {
      // low half without a high half before it
      c, error := REPLACEMENT, true;
    }
  }

  /** `UTF16ToUTF8` and `doUTF16ToUTF8`, reading the second unit where the source does. */
  method UTF16ToUTF8(src: seq<byte>) returns (dst: seq<byte>, errors: bool)
    ensures dst == Utf8Of(Utf16Chars(src, AS_WRITTEN).cs)
    ensures errors <==> Utf16Chars(src, AS_WRITTEN).errors
  {
    hide Encode, Unwritable, TooBig, Utf8Of, Decode16, Next16, Units16, AfterMark16;
    OfNothing(UTF32_LIMIT);
    errors, dst := false, [];
    var data, byteSwapped := SkipMark16(src);
    var n := |data| / 2;
    while n > 0
      invariant n == |data| / 2
      invariant dst + Utf8Of(ReadUtf16(Units16(data, byteSwapped), AS_WRITTEN).cs) ==
        Utf8Of(Utf16Chars(src, AS_WRITTEN).cs)
      invariant errors || ReadUtf16(Units16(data, byteSwapped), AS_WRITTEN).errors <==>
        Utf16Chars(src, AS_WRITTEN).errors
      decreases |data|
    {
      var c, error, rest := ReadCharacter16(data, byteSwapped);
      UnwritableCons(c, ReadUtf16(Units16(rest, byteSwapped), AS_WRITTEN).cs);
      dst, errors := ToUTF8(dst, c, errors || error);
      data, n := rest, |rest| / 2;
    }
  }

  // ------------------------------------------------------ there and back again

  function WithoutMark(cs: seq<Code>): seq<Code> {
    if cs != [] && cs[0] == 0xfeff then cs[1..] else cs
  }

  /** `s` spells U+FEFF first, which every reader takes for a byte order mark. */
  predicate StartsWithMark(s: seq<byte>) {
    DecodeAll(s) != [] && DecodeAll(s)[0] == 0xfeff
  }

  lemma RepairedAreCharacters(s: seq<byte>, limit: int)
    requires limit > REPLACEMENT
    ensures AllCharacters(RepairAll(DecodeAll(s), limit))
  {
    hide DecodeAll;
    DecodeAllRange(s);
  }

  /** Dropping what does not fit and a leading mark gives back `s` exactly when there
    * was nothing malformed, nothing that does not fit and no mark. */
  lemma RepairIsIdentityIff(s: seq<byte>, limit: int)
    requires limit > REPLACEMENT
    ensures AllCharacters(WithoutMark(RepairAll(DecodeAll(s), limit)))
    ensures EncodeAll(WithoutMark(RepairAll(DecodeAll(s), limit))) == s <==>
      WellFormed(s) && !TooBig(DecodeAll(s), limit) && !StartsWithMark(s)
  {
    hide DecodeAll, EncodeAll;
    var cs := DecodeAll(s);
    var ds := WithoutMark(RepairAll(cs, limit));
    RepairedAreCharacters(s, limit);
    EncodesExactly(ds, s);
    if WellFormed(s) && cs == ds {
      assert RepairAll(cs, limit) == ds;
    }
    if WellFormed(s) && !TooBig(cs, limit) && !StartsWithMark(s) {
      assert RepairAll(cs, limit) == cs;
    }
  }

  lemma SanitizeKeeps(cs: seq<Code>)
    requires AllCharacters(cs)
    ensures SanitizeAll(cs) == cs && Utf8Of(cs) == EncodeAll(cs) && !Unwritable(cs)
  {
    hide EncodeAll;
    assert SanitizeAll(cs) == cs;
  }

  /** What any of the readers writes passes `isUTF8` exactly when none of the units is U+FFFE
    * or U+FFFF: `toUTF8` lets these through and `fromUTF8` does not. */
  lemma OutputIsUtf8Iff(cs: seq<UInt32>)
    ensures WellFormed(Utf8Of(cs)) <==> 0xfffe !in cs && 0xffff !in cs
  {
    hide EncodeAll;
    WrittenIsWellFormedIff(SanitizeAll(cs));
    var r := SanitizeAll(cs);
    forall x: UInt32 | x == 0xfffe || x == 0xffff ensures x in cs <==> x in r {
      if x in cs {
        var i :| 0 <= i < |cs| && cs[i] == x;
        assert r[i] == x;
      }
      if x in r {
        var i :| 0 <= i < |r| && r[i] == x;
        assert cs[i] == x;
      }
    }
  }

  lemma Decode32OfPack(u: UInt32, rest: seq<byte>)
    ensures Decode32(Pack32(u) + rest, false) == u
  {
    var a := u / 0x100;
    var b := a / 0x100;
    assert u / 0x1_0000 == b && u / 0x100_0000 == b / 0x100;
  }

  lemma Decode16OfPack(u: UInt16, rest: seq<byte>)
    ensures Decode16(Pack16(u) + rest, false) == u
  {
  }

  lemma {:induction false} Units32OfPack(us: seq<UInt32>)
    ensures Units32(Pack32All(us), false) == us
  {
    hide Decode32;
    if us != [] {
      assert Pack32All(us)[4..] == Pack32All(us[1..]);
      Units32OfPack(us[1..]);
      Decode32OfPack(us[0], Pack32All(us[1..]));
    }
  }

  lemma {:induction false} Units16OfPack(us: seq<UInt16>)
    ensures Units16(Pack16All(us), false) == us
  {
    hide Decode16;
    if us != [] {
      assert Pack16All(us)[2..] == Pack16All(us[1..]);
      Units16OfPack(us[1..]);
      Decode16OfPack(us[0], Pack16All(us[1..]));
    }
  }

  lemma CharsOfPack32(cs: seq<Code>)
    requires AllCharacters(cs)
    ensures Ucs4Chars(Pack32All(cs)) == WithoutMark(cs)
  {
    hide Decode32;
    Units32OfPack(cs);
    if cs != [] {
      assert Pack32All(cs)[4..] == Pack32All(cs[1..]);
      Units32OfPack(cs[1..]);
      Decode32OfPack(cs[0], Pack32All(cs[1..]));
    }
  }

  /** UCS-4: no error is ever raised, and the input comes back exactly when it is
    * well formed and does not start with U+FEFF, over the whole 31-bit range. */
  lemma Ucs4RoundTrip(s: seq<byte>)
    ensures !Unwritable(Ucs4Chars(Utf8To32(s, UCS4_LIMIT)))
    ensures Utf8Of(Ucs4Chars(Utf8To32(s, UCS4_LIMIT))) == s <==> WellFormed(s) && !StartsWithMark(s)
  {
    RepairIsIdentityIff(s, UCS4_LIMIT);
    RepairedAreCharacters(s, UCS4_LIMIT);
    CharsOfPack32(RepairAll(DecodeAll(s), UCS4_LIMIT));
    SanitizeKeeps(WithoutMark(RepairAll(DecodeAll(s), UCS4_LIMIT)));
  }

  lemma {:induction false} ReadUtf32Keeps(cs: seq<Code>)
    requires AllCharacters(cs) && !TooBig(cs, UTF32_LIMIT)
    ensures ReadUtf32(cs) == Reading(cs, false)
  {
    if cs != [] {
      TooBigCons(cs[0], cs[1..], UTF32_LIMIT);
      assert cs == [cs[0]] + cs[1..];
      ReadUtf32Keeps(cs[1..]);
    }
  }

  /** UTF-32: the input comes back exactly when, besides, every character is below 0x110000. */
  lemma Utf32RoundTrip(s: seq<byte>)
    ensures !Utf32Chars(Utf8To32(s, UTF32_LIMIT)).errors
    ensures EncodeAll(Utf32Chars(Utf8To32(s, UTF32_LIMIT)).cs) == s <==>
      WellFormed(s) && !StartsWithMark(s) && !TooBig(DecodeAll(s), UTF32_LIMIT)
  {
    var cs := RepairAll(DecodeAll(s), UTF32_LIMIT);
    RepairIsIdentityIff(s, UTF32_LIMIT);
    RepairedAreCharacters(s, UTF32_LIMIT);
    CharsOfPack32(cs);
    ReadUtf32Keeps(WithoutMark(cs));
  }

  lemma CharsOfPack16(us: seq<UInt16>)
    requires us != [] ==> us[0] != 0xfffe
    ensures var b := AfterMark16(Pack16All(us));
      !b.swapped && Units16(b.octets, false) == if us != [] && us[0] == 0xfeff then us[1..] else us
  {
    hide Decode16;
    Units16OfPack(us);
    if us != [] {
      assert Pack16All(us)[2..] == Pack16All(us[1..]);
      Units16OfPack(us[1..]);
      Decode16OfPack(us[0], Pack16All(us[1..]));
    }
  }

  /** UCS-2: the same with the limit of the basic multilingual plane. */
  lemma Ucs2RoundTrip(s: seq<byte>)
    ensures !Unwritable(Ucs2Chars(Utf8ToUcs2(s)))
    ensures Utf8Of(Ucs2Chars(Utf8ToUcs2(s))) == s <==>
      WellFormed(s) && !StartsWithMark(s) && !TooBig(DecodeAll(s), UCS2_LIMIT)
  {
    var cs := RepairAll(DecodeAll(s), UCS2_LIMIT);
    RepairIsIdentityIff(s, UCS2_LIMIT);
    RepairedAreCharacters(s, UCS2_LIMIT);
    CharsOfPack16(Narrow(cs));
    SanitizeKeeps(WithoutMark(cs));
  }

  /** UTF-16 output is well formed for every byte string whatever, valid UTF-8 or not. */
  lemma Utf16OutputWellFormed(s: seq<byte>)
    ensures WellFormed16(Units16(Utf8ToUtf16(s), false))
  {
    var cs := RepairAll(DecodeAll(s), UTF32_LIMIT);
    RepairedAreCharacters(s, UTF32_LIMIT);
    Units16OfPack(Utf16Of(cs));
    Utf16OfWellFormed(cs);
  }

  lemma {:induction false} Utf16OfWellFormed(cs: seq<Code>)
    requires AllCharacters(cs) && !TooBig(cs, UTF32_LIMIT)
    ensures WellFormed16(Utf16Of(cs))
  {
    if cs != [] {
      Utf16OfWellFormed(cs[1..]);
      var rest := Utf16Of(cs[1..]);
      if cs[0] < UCS2_LIMIT {
        assert Utf16Of(cs)[1..] == rest;
      } else {
        assert Utf16Of(cs)[2..] == rest;
      }
    }
  }

  /** The first character of written UTF-16: at distance 1 a pair is read back, at
    * distance 0 it becomes U+FFFD and is reported. */
  lemma Next16OfWritten(cs: seq<Code>)
    requires cs != [] && IsCharacter(cs[0]) && !TooBig(cs, UTF32_LIMIT)
    ensures Utf16Of(cs) != []
    ensures Next16(Utf16Of(cs), AS_INTENDED) == Step16(cs[0], false, if cs[0] < UCS2_LIMIT then 1 else 2)
    ensures Next16(Utf16Of(cs), AS_WRITTEN) ==
      Step16(Repair(cs[0], UCS2_LIMIT), cs[0] >= UCS2_LIMIT, if cs[0] < UCS2_LIMIT then 1 else 2)
    ensures Utf16Of(cs)[if cs[0] < UCS2_LIMIT then 1 else 2..] == Utf16Of(cs[1..])
  {
  }

  lemma {:induction false} ReadUtf16Of(cs: seq<Code>)
    requires AllCharacters(cs) && !TooBig(cs, UTF32_LIMIT)
    ensures ReadUtf16(Utf16Of(cs), AS_INTENDED) == Reading(cs, false)
    ensures ReadUtf16(Utf16Of(cs), AS_WRITTEN) == Reading(RepairAll(cs, UCS2_LIMIT), TooBig(cs, UCS2_LIMIT))
  {
    hide Next16;
    if cs != [] {
      assert cs == [cs[0]] + cs[1..];
      TooBigCons(cs[0], cs[1..], UCS2_LIMIT);
      Next16OfWritten(cs);
      ReadUtf16Of(cs[1..]);
    }
  }

  lemma MarkIsOneUnit(cs: seq<Code>)
    requires AllCharacters(cs) && !TooBig(cs, UTF32_LIMIT)
    ensures !TooBig(WithoutMark(cs), UTF32_LIMIT)
    ensures forall second :: 0 <= second <= 1 ==>
      Utf16Chars(Pack16All(Utf16Of(cs)), second) == ReadUtf16(Utf16Of(WithoutMark(cs)), second)
  {
    var us := Utf16Of(cs);
    if cs != [] {
      if cs[0] == 0xfeff {
        assert us[1..] == Utf16Of(cs[1..]);
      }
      assert us[0] == 0xfeff <==> cs[0] == 0xfeff;
    }
    CharsOfPack16(us);
  }

  predicate AnySurrogate(us: seq<UInt16>) {
    exists i :: 0 <= i < |us| && IsSurrogate(us[i])
  }

  lemma AnySurrogateFrom(us: seq<UInt16>, k: nat)
    requires 1 <= k <= |us|
    ensures AnySurrogate(us[k..]) ==> AnySurrogate(us)
    ensures AnySurrogate(us) && (forall i :: 0 <= i < k ==> !IsSurrogate(us[i])) ==> AnySurrogate(us[k..])
  {
    if AnySurrogate(us[k..]) {
      var i :| 0 <= i < |us| - k && IsSurrogate(us[k..][i]);
      assert IsSurrogate(us[k + i]);
    }
    if AnySurrogate(us) && forall i :: 0 <= i < k ==> !IsSurrogate(us[i]) {
      var i :| 0 <= i < |us| && IsSurrogate(us[i]);
      assert IsSurrogate(us[k..][i - k]);
    }
  }

  lemma NoneInNothing()
    ensures !AnySurrogate([])
  {
  }

  lemma FirstCounts(us: seq<UInt16>)
    requires us != []
    ensures IsSurrogate(us[0]) ==> AnySurrogate(us)
  {
  }

  lemma NextErrsIff(us: seq<UInt16>)
    requires us != []
    ensures var step := Next16(us, AS_WRITTEN);
      (step.error <==> IsSurrogate(us[0])) && (!step.error ==> step.used == 1)
  {
  }

  /** As written, every surrogate is an error, paired or not: whatever the units, an error is
    * reported exactly when there is one. */
  lemma {:induction false} AsWrittenErrsIff(us: seq<UInt16>)
    ensures ReadUtf16(us, AS_WRITTEN).errors <==> AnySurrogate(us)
    decreases |us|
  {
    hide Next16, AnySurrogate;
    NoneInNothing();
    if us != [] {
      var k := Next16(us, AS_WRITTEN).used;
      NextErrsIff(us);
      AsWrittenErrsIff(us[k..]);
      AnySurrogateFrom(us, k);
      FirstCounts(us);
    }
  }

  /** As intended, exactly unpaired surrogates are errors. */
  lemma {:induction false} AsIntendedErrsIff(us: seq<UInt16>)
    ensures ReadUtf16(us, AS_INTENDED).errors <==> !WellFormed16(us)
    decreases |us|
  {
    if us != [] {
      AsIntendedErrsIff(us[Next16(us, AS_INTENDED).used..]);
    }
  }

  /** On well-formed UTF-16 the code reads what it should exactly when there is no surrogate. */
  lemma {:induction false} AsWrittenIsRightIff(us: seq<UInt16>)
    requires WellFormed16(us)
    ensures ReadUtf16(us, AS_WRITTEN) == ReadUtf16(us, AS_INTENDED) <==> !AnySurrogate(us)
    decreases |us|
  {
    AsWrittenErrsIff(us);
    AsIntendedErrsIff(us);
    if us != [] && !AnySurrogate(us) {
      assert !IsSurrogate(us[0]);
      AnySurrogateFrom(us, 1);
      AsWrittenIsRightIff(us[1..]);
    }
  }

  /** The first character beyond 16 bits. */
  lemma PairIsLost()
    ensures Utf16Of([0x1_0000]) == [0xd800, 0xdc00]
    ensures ReadUtf16([0xd800, 0xdc00], AS_INTENDED) == Reading([0x1_0000], false)
    ensures ReadUtf16([0xd800, 0xdc00], AS_WRITTEN) == Reading([REPLACEMENT], true)
  {
    assert [0xd800, 0xdc00][2..] == [];
  }

  /** A smaller limit absorbs a larger one, whether or not a mark is dropped in between. */
  lemma RepairTwice(cs: seq<Code>)
    ensures RepairAll(WithoutMark(RepairAll(cs, UTF32_LIMIT)), UCS2_LIMIT) == WithoutMark(RepairAll(cs, UCS2_LIMIT))
  {
    hide RepairAll, TooBig;
    var ds, es := RepairAll(cs, UTF32_LIMIT), RepairAll(cs, UCS2_LIMIT);
    assert RepairAll(ds, UCS2_LIMIT) == es;
    if cs != [] && cs[0] == 0xfeff {
      assert RepairAll(ds[1..], UCS2_LIMIT) == es[1..];
    }
  }

  lemma MarkIsNotBig(cs: seq<Code>)
    ensures TooBig(WithoutMark(cs), UCS2_LIMIT) <==> TooBig(cs, UCS2_LIMIT)
  {
    if cs != [] {
      TooBigCons(cs[0], cs[1..], UCS2_LIMIT);
      assert cs == [cs[0]] + cs[1..];
    }
  }

  /** UTF-16 as the source reads it: the input comes back exactly when it is well formed,
    * does not start with U+FEFF and stays in the basic multilingual plane; any other
    * character that was written as a pair raises the error flag on the way back. */
  lemma Utf16RoundTripAsWritten(s: seq<byte>)
    ensures var back := Utf16Chars(Utf8ToUtf16(s), AS_WRITTEN);
      && (Utf8Of(back.cs) == s <==> WellFormed(s) && !StartsWithMark(s) && !TooBig(DecodeAll(s), UCS2_LIMIT))
      && (back.errors <==> TooBig(RepairAll(DecodeAll(s), UTF32_LIMIT), UCS2_LIMIT))
  {
    hide DecodeAll, EncodeAll, Utf16Of, ReadUtf16, Utf16Chars, Pack16All, RepairAll, TooBig;
    var cs := RepairAll(DecodeAll(s), UTF32_LIMIT);
    RepairedAreCharacters(s, UTF32_LIMIT);
    MarkIsOneUnit(cs);
    ReadUtf16Of(WithoutMark(cs));
    RepairTwice(DecodeAll(s));
    MarkIsNotBig(cs);
    RepairIsIdentityIff(s, UCS2_LIMIT);
    SanitizeKeeps(WithoutMark(RepairAll(DecodeAll(s), UCS2_LIMIT)));
  }

  /** The corrected reader, one unit further: every character below 0x110000 survives. */
  lemma Utf16RoundTripAsIntended(s: seq<byte>)
    ensures var back := Utf16Chars(Utf8ToUtf16(s), AS_INTENDED);
      && (Utf8Of(back.cs) == s <==> WellFormed(s) && !StartsWithMark(s) && !TooBig(DecodeAll(s), UTF32_LIMIT))
      && !back.errors
  {
    hide DecodeAll, EncodeAll, Utf16Of, ReadUtf16, Utf16Chars, Pack16All;
    var cs := RepairAll(DecodeAll(s), UTF32_LIMIT);
    RepairedAreCharacters(s, UTF32_LIMIT);
    MarkIsOneUnit(cs);
    ReadUtf16Of(WithoutMark(cs));
    RepairIsIdentityIff(s, UTF32_LIMIT);
    SanitizeKeeps(WithoutMark(cs));
  }

  // ------------------------------------------------------------------ byte order

  /** Every pair of octets exchanged, as a host of the other byte order would store it. */
  function SwapPairs(data: seq<byte>): (d: seq<byte>)
    ensures |d| == |data|
  {
    if |data| < 2 then data else [data[1], data[0]] + SwapPairs(data[2..])
  }

  lemma {:induction false} SwappedUnits(data: seq<byte>)
    ensures Units16(SwapPairs(data), true) == Units16(data, false)
  {
    if |data| >= 2 {
      SwappedUnits(data[2..]);
      assert SwapPairs(data)[2..] == SwapPairs(data[2..]);
    }
  }

  /** Section 3.2 of RFC 2781: a swapped copy behind a swapped mark reads the same. */
  lemma ByteOrderIsImmaterial16(data: seq<byte>)
    ensures Ucs2Chars([0xfe, 0xff] + SwapPairs(data)) == Ucs2Chars([0xff, 0xfe] + data)
    ensures Utf16Chars([0xfe, 0xff] + SwapPairs(data), AS_WRITTEN) == Utf16Chars([0xff, 0xfe] + data, AS_WRITTEN)
  {
    SwappedUnits(data);
    assert ([0xfe, 0xff] + SwapPairs(data))[2..] == SwapPairs(data);
    assert ([0xff, 0xfe] + data)[2..] == data;
  }

  /** With 32-bit units it does matter: the swapped mark is not recognised, reads as a
    * character out of range and is reported, whatever follows it. */
  lemma SwappedMarkReported32(data: seq<byte>)
    ensures AfterMark32([0xff, 0xfe, 0x00, 0x00] + data) == Body(data, false)
    ensures Unwritable(Ucs4Chars([0x00, 0x00, 0xfe, 0xff] + data))
    ensures Utf32Chars([0x00, 0x00, 0xfe, 0xff] + data).errors
  {
    var swapped := [0x00, 0x00, 0xfe, 0xff] + data;
    assert Decode32(swapped, false) == 0xfffe_0000;
    assert Ucs4Chars(swapped)[0] == 0xfffe_0000;
    var marked := [0xff, 0xfe, 0x00, 0x00] + data;
    assert Decode32(marked, false) == 0x0000_feff;
    assert marked[4..] == data;
  }

  // -------------------------------------------------- the conversions, step by step

  /** The first unit written and what follows: a malformed stretch and a character from the limit on
    * become U+FFFD, the low octet comes first. */
  lemma FirstUnit32(s: seq<byte>, limit: int)
    requires limit == 0x8000_0000 || limit == 0x11_0000
    ensures UCS2_LIMIT == 0x1_0000 && UTF32_LIMIT == 0x11_0000 && UCS4_LIMIT == 0x8000_0000 && AS_WRITTEN == 0
    ensures Utf8To32([], limit) == []
    ensures s != [] ==>
      var d := Decode(s);
      var c: nat := if d.c == 0xffff || d.c >= limit then 0xfffd else d.c;
      Utf8To32(s, limit) ==
        [c % 0x100, c / 0x100 % 0x100, c / 0x1_0000 % 0x100, c / 0x100_0000] + Utf8To32(s[d.used..], limit)
  {
    hide Decode;
  }

  lemma FirstUnit16(s: seq<byte>)
    ensures Utf8ToUcs2([]) == []
    ensures s != [] ==>
      var d := Decode(s);
      var c: nat := if d.c == 0xffff || d.c >= 0x1_0000 then 0xfffd else d.c;
      Utf8ToUcs2(s) == [c % 0x100, c / 0x100] + Utf8ToUcs2(s[d.used..])
  {
    hide Decode;
    if s != [] {
      Utf8ToUcs2Step(s);
    }
  }

  /** UTF-16 of one character: itself, or a high and a low surrogate with ten bits each. */
  lemma PairOf(c: Code)
    requires c < 0x11_0000
    ensures Utf16Of([c]) ==
      if c < 0x1_0000 then [c] else [0xd800 + (c - 0x1_0000) / 0x400, 0xdc00 + (c - 0x1_0000) % 0x400]
  {
    assert [c][1..] == [];
  }

  lemma FirstOfUtf16(s: seq<byte>)
    ensures Utf8ToUtf16([]) == []
    ensures s != [] ==>
      var d := Decode(s);
      var c: Code := if d.c == 0xffff || d.c >= 0x11_0000 then 0xfffd else d.c;
      Utf8ToUtf16(s) == Pack16All(Utf16Of([c])) + Utf8ToUtf16(s[d.used..])
  {
    hide Decode;
    if s != [] {
      Utf8ToUtf16Step(s);
    }
  }

  /** The units in host order and swapped; an odd octet at the end is no unit. */
  lemma UnitsRead(a: byte, b: byte, c: byte, d: byte, rest: seq<byte>)
    ensures var x: int, y: int, z: int, w: int := a, b, c, d;
      && Units16([a, b] + rest, false) == [x + 0x100 * y] + Units16(rest, false)
      && Units16([a, b] + rest, true) == [y + 0x100 * x] + Units16(rest, true)
      && Units32([a, b, c, d] + rest, false) ==
           [x + 0x100 * y + 0x1_0000 * z + 0x100_0000 * w] + Units32(rest, false)
      && Units32([a, b, c, d] + rest, true) ==
           [w + 0x100 * z + 0x1_0000 * y + 0x100_0000 * x] + Units32(rest, true)
    ensures Units16([], false) == [] && Units16([a], false) == [] && Units32([], false) == []
    ensures Units32([a, b, c], false) == []
  {
    assert ([a, b] + rest)[2..] == rest && ([a, b, c, d] + rest)[4..] == rest;
  }

  /** The marks the code knows: 0xff 0xfe and 0xfe 0xff for 16 bits, and for 32 bits the first of
    * them and what the swapped constant happens to be. */
  lemma MarksRead(rest: seq<byte>)
    ensures AfterMark16([0xff, 0xfe] + rest) == Body(rest, false)
    ensures AfterMark16([0xfe, 0xff] + rest) == Body(rest, true)
    ensures AfterMark32([0xff, 0xfe, 0, 0] + rest) == Body(rest, false)
    ensures AfterMark32([0xfe, 0xff, 0, 0] + rest) == Body(rest, true)
  {
    assert ([0xff, 0xfe] + rest)[2..] == rest && ([0xfe, 0xff] + rest)[2..] == rest;
    assert ([0xff, 0xfe, 0, 0] + rest)[4..] == rest && ([0xfe, 0xff, 0, 0] + rest)[4..] == rest;
  }

  lemma NoMark(s: seq<byte>)
    ensures (|s| < 2 || s[..2] !in {[0xff, 0xfe], [0xfe, 0xff]}) ==> AfterMark16(s) == Body(s, false)
    ensures (|s| < 4 || s[..4] !in {[0xff, 0xfe, 0, 0], [0xfe, 0xff, 0, 0]}) ==> AfterMark32(s) == Body(s, false)
  {
    if |s| >= 2 {
      assert s[..2] == [s[0], s[1]];
    }
    if |s| >= 4 {
      assert s[..4] == [s[0], s[1], s[2], s[3]];
    }
  }

  /** One turn of the UTF-16 reader: a unit that is no surrogate is a character; a high surrogate
    * takes the next unit with it and is an error, as is a low one. */
  lemma TurnAsWritten(us: seq<UInt16>)
    requires us != []
    ensures Next16(us, 0) ==
      if !(0xd800 <= us[0] <= 0xdfff) then Step16(us[0], false, 1)
      else if us[0] <= 0xdbff && |us| > 1 then Step16(0xfffd, true, 2)
      else Step16(0xfffd, true, 1)
  {
  }

  /** One turn of the UTF-32 reader. */
  lemma Turn32(us: seq<UInt32>)
    ensures ReadUtf32([]) == Reading([], false)
    ensures us != [] ==>
      var bad := us[0] >= 0x11_0000 || 0xd800 <= us[0] <= 0xdfff;
      var rest := ReadUtf32(us[1..]);
      ReadUtf32(us) == Reading([if bad then 0xfffd else us[0]] + rest.cs, bad || rest.errors)
  {
  }

  /** What the two kinds of error flag stand for. */
  lemma FlagsStandFor(cs: seq<UInt32>, limit: int)
    ensures TooBig(cs, limit) <==> exists i :: 0 <= i < |cs| && cs[i] >= limit
    ensures Unwritable(cs) <==> exists i :: 0 <= i < |cs| && (0xd800 <= cs[i] <= 0xdfff || cs[i] >= 0x8000_0000)
  {
    forall i | 0 <= i < |cs| ensures cs[i] != Sanitize(cs[i]) <==> 0xd800 <= cs[i] <= 0xdfff || cs[i] >= 0x8000_0000 {
    }
  }
}
