/**
  * The UTF-8 codec of src/lib/base/Unicode.cpp: the six-octet form of section 2
  * of RFC 2279, with the source's resynchronisation after malformed input.
  *
  * Octets and characters are integers in the range of UInt8 and UInt32. A right
  * shift followed by a mask is written as a division and a remainder by powers of
  * two, and the `or` of bit fields that do not overlap as a sum.
  *
  * `Encode` and `Decode` follow the RFC's table (a size class, the mark and bits
  * of a lead octet, groups of six bits); `ToUTF8` and `FromUTF8` are the source's
  * own branch-by-branch algorithms, proved equal to them.
  */
module Utf8 {

  type byte = b: int | 0 <= b < 0x100
  type UInt32 = c: int | 0 <= c < 0x1_0000_0000

  /** What six octets can carry. */
  type Code = c: int | 0 <= c < 0x8000_0000

  const INVALID: Code := 0x0000_ffff
  const REPLACEMENT: Code := 0x0000_fffd

  predicate IsSurrogate(c: UInt32) {
    0xd800 <= c <= 0xdfff
  }

  /** The characters of the encoding: 31 bits, no surrogate, not U+FFFE or U+FFFF. */
  predicate IsCharacter(c: Code) {
    !IsSurrogate(c) && c != 0xfffe && c != 0xffff
  }

  predicate AllCharacters(cs: seq<Code>) {
    forall i :: 0 <= i < |cs| ==> IsCharacter(cs[i])
  }

  predicate IsContinuation(b: byte) {
    0x80 <= b < 0xc0
  }

  predicate AllContinuation(s: seq<byte>) {
    forall i :: 0 <= i < |s| ==> IsContinuation(s[i])
  }

  // ---------------------------------------------------------------- encoding

  /** Number of octets of the shortest form of `c`. */
  function SizeOf(c: UInt32): (size: nat)
    ensures 1 <= size <= 6
  {
    if c < 0x80 then 1
    else if c < 0x800 then 2
    else if c < 0x1_0000 then 3
    else if c < 0x20_0000 then 4
    else if c < 0x400_0000 then 5
    else 6
  }

  /** The high bits that mark the lead octet of a sequence of `size` octets. */
  function Mark(size: nat): byte {
    match size
    case 1 => 0x00
    case 2 => 0xc0
    case 3 => 0xe0
    case 4 => 0xf0
    case 5 => 0xf8
    case _ => 0xfc
  }

  /** How many values the lead octet can carry below its mark. */
  function LeadRange(size: nat): nat {
    match size
    case 1 => 0x80
    case 2 => 0x20
    case 3 => 0x10
    case 4 => 0x08
    case 5 => 0x04
    case _ => 0x02
  }

  /** `c` without its last `k` groups of six bits. */
  function Upper(c: UInt32, k: nat): UInt32 {
    if k == 0 then c else Upper(c / 0x40, k - 1)
  }

  /** Continuation octets for the last `k` groups of `c`, most significant first. */
  function Groups(c: UInt32, k: nat): (g: seq<byte>)
    ensures |g| == k && AllContinuation(g)
  {
    if k == 0 then [] else Groups(c / 0x40, k - 1) + [0x80 + c % 0x40]
  }

  /** The shortest form of `c`, by the table of section 2 of RFC 2279. */
  function Encode(c: Code): (s: seq<byte>)
    ensures |s| == SizeOf(c)
  {
    UpperFits(c);
    [Mark(SizeOf(c)) + Upper(c, SizeOf(c) - 1)] + Groups(c, SizeOf(c) - 1)
  }

  lemma {:induction false} UpperStep(c: UInt32, k: nat)
    ensures Upper(c, k + 1) == Upper(c, k) / 0x40
  {
    if k > 0 {
      UpperStep(c / 0x40, k - 1);
    }
  }

  /** The shifts of the source's table, each as repeated removal of a group. */
  lemma UpperUnrolled(c: UInt32)
    ensures Upper(c, 0) == c
    ensures Upper(c, 1) == c / 0x40
    ensures Upper(c, 2) == c / 0x1000
    ensures Upper(c, 3) == c / 0x4_0000
    ensures Upper(c, 4) == c / 0x100_0000
    ensures Upper(c, 5) == c / 0x4000_0000
  {
    UpperStep(c, 0);
    UpperStep(c, 1);
    UpperStep(c, 2);
    UpperStep(c, 3);
    UpperStep(c, 4);
  }

  lemma UpperFits(c: Code)
    ensures Upper(c, SizeOf(c) - 1) < LeadRange(SizeOf(c))
  {
    UpperUnrolled(c);
  }

  function EncodeAll(cs: seq<Code>): (s: seq<byte>) {
    if cs == [] then [] else Encode(cs[0]) + EncodeAll(cs[1..])
  }

  // ---------------------------------------------------------------- decoding

  /** Size announced by a lead octet; 0 when `b` cannot start a character. */
  function LeadSize(b: byte): (size: nat)
    ensures size <= 6
  {
    if b < 0x80 then 1
    else if b < 0xc0 then 0
    else if b < 0xe0 then 2
    else if b < 0xf0 then 3
    else if b < 0xf8 then 4
    else if b < 0xfc then 5
    else if b < 0xfe then 6
    else 0
  }

  /** Length of the longest prefix of `s` made of continuation octets. */
  function ContinuationRun(s: seq<byte>): (k: nat)
    ensures k <= |s|
    ensures AllContinuation(s[..k])
    ensures k < |s| ==> !IsContinuation(s[k])
  {
    if s == [] || !IsContinuation(s[0]) then 0 else 1 + ContinuationRun(s[1..])
  }

  /** The bits a continuation octet carries. */
  function Low6(b: byte): (v: nat)
    ensures v < 0x40
  {
    b % 0x40
  }

  /** `acc` followed by the six low bits of every octet of `s`. */
  function Fold(acc: nat, s: seq<byte>): (v: nat)
  {
    if s == [] then acc else Fold(acc, s[..|s| - 1]) * 0x40 + Low6(s[|s| - 1])
  }

  /** The bits carried by a sequence of |s| octets, whatever its markers are. */
  function Value(s: seq<byte>): nat
    requires 1 <= |s| <= 6
  {
    Fold(s[0] % LeadRange(|s|), s[1..])
  }

  datatype Decoded = Decoded(c: Code, used: nat)

  /** One character from the front of `s`, and the number of octets it takes. */
  function Decode(s: seq<byte>): (d: Decoded)
    requires s != []
    ensures 1 <= d.used <= |s|
  {
    var size := LeadSize(s[0]);
    if size == 0 then
      Decoded(INVALID, 1)
    else if size > |s| then
      Decoded(INVALID, |s|)
    else
      var run := 1 + ContinuationRun(s[1..size]);
      if run < size then
        Decoded(INVALID, run)
      else
        ValueFits(s[..size]);
        var c: Code := Value(s[..size]);
        Decoded(if SizeOf(c) == size && IsCharacter(c) then c else INVALID, size)
  }

  /** A sequence never carries more bits than its size class allows. */
  lemma ValueFits(s: seq<byte>)
    requires 1 <= |s| <= 6
    ensures Value(s) < 0x8000_0000
    ensures SizeOf(Value(s)) <= |s|
  {
    FoldUnrolled(s[0] % LeadRange(|s|), s[1..]);
  }

  /** The source's shifts and masks, as one sum for each size. */
  lemma FoldUnrolled(acc: nat, s: seq<byte>)
    requires |s| <= 5
    ensures |s| == 0 ==> Fold(acc, s) == acc
    ensures |s| == 1 ==> Fold(acc, s) == acc * 0x40 + Low6(s[0])
    ensures |s| == 2 ==> Fold(acc, s) == acc * 0x1000 + Low6(s[0]) * 0x40 + Low6(s[1])
    ensures |s| == 3 ==> Fold(acc, s) == acc * 0x4_0000 + Low6(s[0]) * 0x1000 + Low6(s[1]) * 0x40 + Low6(s[2])
    ensures |s| == 4 ==>
      Fold(acc, s) == acc * 0x100_0000 + Low6(s[0]) * 0x4_0000 + Low6(s[1]) * 0x1000 + Low6(s[2]) * 0x40 + Low6(s[3])
    ensures |s| == 5 ==>
      Fold(acc, s) == acc * 0x4000_0000 + Low6(s[0]) * 0x100_0000 + Low6(s[1]) * 0x4_0000 + Low6(s[2]) * 0x1000
                    + Low6(s[3]) * 0x40 + Low6(s[4])
  {
    if s != [] {
      FoldUnrolled(acc, s[..|s| - 1]);
    }
  }

  // ------------------------------------------------------ the canonical codec

  lemma {:induction false} FoldOfGroups(c: UInt32, k: nat)
    ensures Fold(Upper(c, k), Groups(c, k)) == c
  {
    if k > 0 {
      FoldOfGroups(c / 0x40, k - 1);
      assert Groups(c, k)[..k - 1] == Groups(c / 0x40, k - 1);
    }
  }

  lemma {:induction false} GroupsOfFold(acc: UInt32, s: seq<byte>)
    requires AllContinuation(s)
    requires Fold(acc, s) < 0x1_0000_0000
    ensures Upper(Fold(acc, s), |s|) == acc
    ensures Groups(Fold(acc, s), |s|) == s
  {
    if s != [] {
      var front := s[..|s| - 1];
      GroupsOfFold(acc, front);
      assert s == front + [s[|s| - 1]];
    }
  }

  /** A lead octet is its mark plus the bits it carries, and the mark tells the size. */
  lemma LeadSplit(b: byte, size: nat)
    requires 1 <= size <= 6
    ensures LeadSize(b) == size <==> Mark(size) <= b < Mark(size) + LeadRange(size)
    ensures LeadSize(b) == size ==> b == Mark(size) + b % LeadRange(size)
  {
  }

  lemma ValueOfEncode(c: Code)
    ensures Value(Encode(c)) == c
    ensures LeadSize(Encode(c)[0]) == |Encode(c)|
    ensures AllContinuation(Encode(c)[1..])
  {
    var s := Encode(c);
    UpperFits(c);
    FoldOfGroups(c, |s| - 1);
    assert s[1..] == Groups(c, |s| - 1);
    LeadSplit(s[0], |s|);
  }

  lemma EncodeOfValue(s: seq<byte>, c: Code)
    requires 1 <= |s| == LeadSize(s[0]) && AllContinuation(s[1..])
    requires c == Value(s) && SizeOf(c) == |s|
    ensures Encode(c) == s
  {
    hide Groups, Upper, LeadSize, Mark, LeadRange, Fold;
    LeadSplit(s[0], |s|);
    GroupsOfFold(s[0] % LeadRange(|s|), s[1..]);
    assert s == [s[0]] + s[1..];
  }

  lemma RunIs(s: seq<byte>, k: nat)
    requires k <= |s| && AllContinuation(s[..k])
    requires k < |s| ==> !IsContinuation(s[k])
    ensures ContinuationRun(s) == k
  {
    if k > 0 {
      assert IsContinuation(s[..k][0]);
      assert s[1..][..k - 1] == s[..k][1..];
      RunIs(s[1..], k - 1);
    }
  }

  /** What `fromUTF8` makes of the encoding of `c`. */
  function Accepted(c: Code): Code {
    if IsCharacter(c) then c else INVALID
  }

  /** The encoding of any 31-bit number is consumed whole and leaves the octets that follow
    * untouched; it is accepted exactly when the number is a character. */
  lemma DecodeOfEncode(c: Code, rest: seq<byte>)
    ensures Decode(Encode(c) + rest) == Decoded(Accepted(c), |Encode(c)|)
  {
    hide Encode, Value, LeadSize;
    var t := Encode(c);
    var s := t + rest;
    ValueOfEncode(c);
    assert s[0] == t[0];
    assert s[..|t|] == t;
    assert s[1..|t|] == t[1..] == t[1..][..|t| - 1];
    RunIs(s[1..|t|], |t| - 1);
  }

  /** Only the shortest form decodes: what was consumed is what would be written. */
  lemma EncodeOfDecode(s: seq<byte>)
    requires s != [] && Decode(s).c != INVALID
    ensures IsCharacter(Decode(s).c)
    ensures s[..Decode(s).used] == Encode(Decode(s).c)
  {
    var t := s[..LeadSize(s[0])];
    assert t[1..] == s[1..|t|] == s[1..|t|][..|t| - 1];
    EncodeOfValue(t, Decode(s).c);
  }

  // ------------------------------------------------ every case of the octets read

  /** Which octets announce how many: none of 0x80 to 0xbf and of 0xfe and 0xff. */
  lemma LeadOutcomes(b: byte)
    ensures LeadSize(b) ==
      if b <= 0x7f then 1 else if b <= 0xbf then 0 else if b <= 0xdf then 2 else if b <= 0xef then 3
      else if b <= 0xf7 then 4 else if b <= 0xfb then 5 else if b <= 0xfd then 6 else 0
    ensures IsContinuation(b) <==> 0x80 <= b <= 0xbf
  {
  }

  /** An octet that announces nothing is one malformed character by itself. */
  lemma NoLeadIsOne(s: seq<byte>)
    requires s != [] && (0x80 <= s[0] <= 0xbf || s[0] >= 0xfe)
    ensures Decode(s) == Decoded(0xffff, 1)
  {
  }

  /** A sequence that is cut off by the end of the input is one malformed character to the end. */
  lemma CutOffIsOne(s: seq<byte>)
    requires s != [] && LeadSize(s[0]) > |s|
    ensures Decode(s) == Decoded(0xffff, |s|)
  {
  }

  /** A sequence that is cut off by an octet that does not continue it is one malformed character up
    * to that octet. */
  lemma TruncatedIsOne(s: seq<byte>, k: nat)
    requires s != [] && 1 <= k < LeadSize(s[0]) <= |s|
    requires AllContinuation(s[1..k]) && !IsContinuation(s[k])
    ensures Decode(s) == Decoded(0xffff, k)
  {
    var tail := s[1..LeadSize(s[0])];
    assert tail[..k - 1] == s[1..k] && tail[k - 1] == s[k];
    RunIs(tail, k - 1);
  }

  /** The bits of a complete sequence. */
  lemma BitsOf(s: seq<byte>)
    requires s != [] && LeadSize(s[0]) == |s|
    ensures var d: seq<int> := s;
      && (|s| == 1 ==> Value(s) == d[0])
      && (|s| == 2 ==> Value(s) == d[0] % 0x20 * 0x40 + d[1] % 0x40)
      && (|s| == 3 ==> Value(s) == d[0] % 0x10 * 0x1000 + d[1] % 0x40 * 0x40 + d[2] % 0x40)
      && (|s| == 4 ==>
           Value(s) == d[0] % 0x08 * 0x4_0000 + d[1] % 0x40 * 0x1000 + d[2] % 0x40 * 0x40 + d[3] % 0x40)
      && (|s| == 5 ==>
           Value(s) == d[0] % 0x04 * 0x100_0000 + d[1] % 0x40 * 0x4_0000 + d[2] % 0x40 * 0x1000 + d[3] % 0x40 * 0x40
             + d[4] % 0x40)
      && (|s| == 6 ==>
           Value(s) == d[0] % 0x02 * 0x4000_0000 + d[1] % 0x40 * 0x100_0000 + d[2] % 0x40 * 0x4_0000
             + d[3] % 0x40 * 0x1000 + d[4] % 0x40 * 0x40 + d[5] % 0x40)
  {
    hide Fold;
    FoldUnrolled(s[0] % LeadRange(|s|), s[1..]);
  }

  /** A complete sequence is consumed whole: it is malformed when its value fits fewer octets, is a
    * surrogate, or is U+FFFE or U+FFFF, and stands for its value otherwise. */
  lemma CompleteIsWhole(s: seq<byte>, size: nat)
    requires s != [] && 1 <= size == LeadSize(s[0]) <= |s| && AllContinuation(s[1..size])
    ensures var v := Value(s[..size]);
      var shortest := if v < 0x80 then 1 else if v < 0x800 then 2 else if v < 0x1_0000 then 3
                      else if v < 0x20_0000 then 4 else if v < 0x400_0000 then 5 else 6;
      && Decode(s).used == size
      && Decode(s).c == if shortest < size || 0xd800 <= v <= 0xdfff || v == 0xfffe || v == 0xffff then 0xffff else v
  {
    hide Value;
    assert s[1..size][..size - 1] == s[1..size];
    RunIs(s[1..size], size - 1);
    ValueFits(s[..size]);
    FitsItsSize(s[..size]);
  }

  lemma FitsItsSize(s: seq<byte>)
    requires s != [] && LeadSize(s[0]) == |s|
    ensures Value(s) < 0x8000_0000 && SizeOf(Value(s)) <= |s|
  {
    BitsOf(s);
  }

  /** The encoding, octet by octet. */
  lemma OctetsOfEncoding(c: Code)
    ensures Encode(c) ==
      if c < 0x80 then [c]
      else if c < 0x800 then [0xc0 + c / 0x40, 0x80 + c % 0x40]
      else if c < 0x1_0000 then [0xe0 + c / 0x1000, 0x80 + c / 0x40 % 0x40, 0x80 + c % 0x40]
      else if c < 0x20_0000 then
        [0xf0 + c / 0x4_0000, 0x80 + c / 0x1000 % 0x40, 0x80 + c / 0x40 % 0x40, 0x80 + c % 0x40]
      else if c < 0x400_0000 then
        [0xf8 + c / 0x100_0000, 0x80 + c / 0x4_0000 % 0x40, 0x80 + c / 0x1000 % 0x40, 0x80 + c / 0x40 % 0x40,
         0x80 + c % 0x40]
      else
        [0xfc + c / 0x4000_0000, 0x80 + c / 0x100_0000 % 0x40, 0x80 + c / 0x4_0000 % 0x40, 0x80 + c / 0x1000 % 0x40,
         0x80 + c / 0x40 % 0x40, 0x80 + c % 0x40]
  {
    hide Encode, Upper;
    UpperUnrolled(c);
    forall i | 0 <= i < SizeOf(c)
      ensures Encode(c)[i] ==
        if i == 0 then Mark(SizeOf(c)) + Upper(c, SizeOf(c) - 1) else 0x80 + Upper(c, SizeOf(c) - 1 - i) % 0x40
    {
      EncodeAt(c, i);
    }
  }

  /** What `toUTF8` replaces, and by what. */
  lemma SanitizeOutcome(c: UInt32)
    ensures Sanitize(c) == if 0xd800 <= c <= 0xdfff || c >= 0x8000_0000 then 0xfffd else c
  {
  }

  /** No octet that could start a character is lost with the one read first. */
  predicate Resynchronises(s: seq<byte>)
    requires s != []
  {
    forall i :: 1 <= i < Decode(s).used ==> LeadSize(s[i]) == 0
  }

  /** Exactly when decoding goes on at the next octet that could start a character: when the
    * announced size fits into what is left, or when nothing that is left could start one.
    * Otherwise `fromUTF8` throws everything away. */
  lemma ResynchronisesIff(s: seq<byte>)
    requires s != []
    ensures Resynchronises(s) <==> LeadSize(s[0]) <= |s| || forall i :: 1 <= i < |s| ==> LeadSize(s[i]) == 0
  {
    var size := LeadSize(s[0]);
    if 0 < size <= |s| {
      var tail := s[1..size];
      forall i | 1 <= i < Decode(s).used ensures LeadSize(s[i]) == 0 {
        assert tail[..ContinuationRun(tail)][i - 1] == s[i];
      }
    }
  }

  /** A lead octet cut off at the end takes the letter after it with it, or four letters. */
  lemma CutOffLeadSwallows()
    ensures Decode([0xe0, 0x41]) == Decoded(INVALID, 2) && !Resynchronises([0xe0, 0x41])
    ensures DecodeAll([0xfc, 0x41, 0x42, 0x43, 0x44]) == [INVALID]
  {
    assert LeadSize([0xe0, 0x41][1]) == 1;
  }

  // ------------------------------------------------------------ whole strings

  /** All characters of `s` in order; each malformed stretch reads as `INVALID`. */
  function DecodeAll(s: seq<byte>): (cs: seq<Code>) {
    if s == [] then [] else
      var d := Decode(s);
      [d.c] + DecodeAll(s[d.used..])
  }

  predicate WellFormed(s: seq<byte>) {
    INVALID !in DecodeAll(s)
  }

  function AcceptedAll(cs: seq<Code>): (r: seq<Code>)
    ensures |r| == |cs| && forall i :: 0 <= i < |cs| ==> r[i] == Accepted(cs[i])
  {
    if cs == [] then [] else [Accepted(cs[0])] + AcceptedAll(cs[1..])
  }

  /** Reading what was written: every character comes back, anything else is refused in place. */
  lemma {:induction false} DecodeAllOfEncodeAll(cs: seq<Code>)
    ensures DecodeAll(EncodeAll(cs)) == AcceptedAll(cs)
    ensures AllCharacters(cs) ==> DecodeAll(EncodeAll(cs)) == cs
  {
    hide Decode, Encode, Accepted;
    if cs != [] {
      var s := EncodeAll(cs);
      DecodeOfEncode(cs[0], EncodeAll(cs[1..]));
      assert s[|Encode(cs[0])|..] == EncodeAll(cs[1..]);
      DecodeAllOfEncodeAll(cs[1..]);
    }
    AcceptedIsIdentity(cs);
  }

  lemma AcceptedIsIdentity(cs: seq<Code>)
    ensures AllCharacters(cs) <==> INVALID !in AcceptedAll(cs)
    ensures AllCharacters(cs) ==> AcceptedAll(cs) == cs
  {
    if !AllCharacters(cs) {
      var i :| 0 <= i < |cs| && !IsCharacter(cs[i]);
      assert AcceptedAll(cs)[i] == INVALID;
    }
  }

  /** What is written is valid UTF-8 exactly when only characters are written. */
  lemma WrittenIsWellFormedIff(cs: seq<Code>)
    ensures WellFormed(EncodeAll(cs)) <==> AllCharacters(cs)
  {
    hide Accepted;
    DecodeAllOfEncodeAll(cs);
    AcceptedIsIdentity(cs);
  }

  lemma {:induction false} EncodeAllOfDecodeAll(s: seq<byte>)
    requires WellFormed(s)
    ensures AllCharacters(DecodeAll(s))
    ensures EncodeAll(DecodeAll(s)) == s
  {
    hide Decode, Encode, IsCharacter;
    if s != [] {
      var d := Decode(s);
      var rest := s[d.used..];
      assert DecodeAll(s) == [d.c] + DecodeAll(rest);
      assert INVALID !in DecodeAll(rest) && d.c != INVALID;
      EncodeOfDecode(s);
      EncodeAllOfDecodeAll(rest);
      assert s == s[..d.used] + rest;
    }
  }

  /** `isUTF8` accepts exactly the strings that encode some sequence of characters. */
  lemma WellFormedIffEncoded(s: seq<byte>)
    ensures WellFormed(s) <==> exists cs :: AllCharacters(cs) && s == EncodeAll(cs)
  {
    if WellFormed(s) {
      EncodeAllOfDecodeAll(s);
    }
    forall cs | AllCharacters(cs) && s == EncodeAll(cs) ensures WellFormed(s) {
      DecodeAllOfEncodeAll(cs);
    }
  }

  /** An encoding equals `s` exactly when `s` is well formed and spells those characters. */
  lemma EncodesExactly(cs: seq<Code>, s: seq<byte>)
    requires AllCharacters(cs)
    ensures EncodeAll(cs) == s <==> WellFormed(s) && DecodeAll(s) == cs
  {
    DecodeAllOfEncodeAll(cs);
    if WellFormed(s) {
      EncodeAllOfDecodeAll(s);
    }
  }

  /** `fromUTF8` returns characters and the invalid mark, nothing else. */
  lemma {:induction false} DecodeAllRange(s: seq<byte>)
    ensures forall i :: 0 <= i < |DecodeAll(s)| ==> DecodeAll(s)[i] == INVALID || IsCharacter(DecodeAll(s)[i])
  {
    if s != [] {
      var d := Decode(s);
      if d.c != INVALID {
        EncodeOfDecode(s);
      }
      DecodeAllRange(s[d.used..]);
    }
  }

  // ------------------------------------------------------ the source's algorithms

  /** The smallest character that needs `size` octets. */
  function MinChar(size: nat): Code {
    match size
    case 1 => 0
    case 2 => 0x80
    case 3 => 0x800
    case 4 => 0x1_0000
    case 5 => 0x20_0000
    case _ => 0x400_0000
  }

  /** What `toUTF8` writes in place of `c`. */
  function Sanitize(c: UInt32): Code {
    if IsSurrogate(c) || c >= 0x8000_0000 then REPLACEMENT else c
  }

  /** The value switch of `fromUTF8`. */
  method ExtractCharacter(data: seq<byte>, size: nat) returns (c: UInt32)
    requires data != [] && 1 <= size == LeadSize(data[0]) <= |data|
    ensures c == Value(data[..size])
  {
    hide Fold, Low6;
    var d0: nat := data[0];
    ghost var tail := data[1..size];
    assert data[..size][1..] == tail && data[..size][0] == d0;
    assert forall i :: 0 <= i < |tail| ==> tail[i] == data[i + 1];
    match size {
      case 1 =>
        FoldUnrolled(d0 % 0x80, tail);
        c := d0;
      case 2 =>
        FoldUnrolled(d0 % 0x20, tail);
        c := d0 % 0x20 * 0x40 + Low6(data[1]);
      case 3 =>
        FoldUnrolled(d0 % 0x10, tail);
        c := d0 % 0x10 * 0x1000 + Low6(data[1]) * 0x40 + Low6(data[2]);
      case 4 =>
        FoldUnrolled(d0 % 0x08, tail);
        c := d0 % 0x08 * 0x4_0000 + Low6(data[1]) * 0x1000 + Low6(data[2]) * 0x40 + Low6(data[3]);
      case 5 =>
        FoldUnrolled(d0 % 0x04, tail);
        c := d0 % 0x04 * 0x100_0000 + Low6(data[1]) * 0x4_0000 + Low6(data[2]) * 0x1000 + Low6(data[3]) * 0x40
          + Low6(data[4]);
      case _ =>
        FoldUnrolled(d0 % 0x02, tail);
        c := d0 % 0x02 * 0x4000_0000 + Low6(data[1]) * 0x100_0000 + Low6(data[2]) * 0x4_0000 + Low6(data[3]) * 0x1000
          + Low6(data[4]) * 0x40 + Low6(data[5]);
    }
  }

  /** The truncation switch of `fromUTF8`: its cases fall through from the last octet
    * to the second, so the earliest octet that is not a continuation sets the size. */
  method CheckContinuations(data: seq<byte>, announced: nat) returns (truncated: bool, size: nat)
    requires 1 <= announced <= 6 && announced <= |data|
    ensures size == 1 + ContinuationRun(data[1..announced])
    ensures truncated <==> size < announced
  {
    truncated, size := false, announced;
    if announced >= 6 && data[5] / 0x40 != 2 {
      truncated, size := true, 5;
    }
    if announced >= 5 && data[4] / 0x40 != 2 {
      truncated, size := true, 4;
    }
    if announced >= 4 && data[3] / 0x40 != 2 {
      truncated, size := true, 3;
    }
    if announced >= 3 && data[2] / 0x40 != 2 {
      truncated, size := true, 2;
    }
    if announced >= 2 && data[1] / 0x40 != 2 {
      truncated, size := true, 1;
    }
    RunIs(data[1..announced], size - 1);
  }

  /** `fromUTF8`: `data` and `n` advance together, so the octets left over stand for both. */
  method FromUTF8(data: seq<byte>) returns (c: Code, rest: seq<byte>)
    requires data != []
    ensures c == Decode(data).c
    ensures rest == data[Decode(data).used..]
  {
    var size: nat;
    if data[0] < 0x80 {
      size := 1;
    } else if data[0] < 0xc0 {
      return INVALID, data[1..];
    } else if data[0] < 0xe0 {
      size := 2;
    } else if data[0] < 0xf0 {
      size := 3;
    } else if data[0] < 0xf8 {
      size := 4;
    } else if data[0] < 0xfc {
      size := 5;
    } else if data[0] < 0xfe {
      size := 6;
    } else {
      return INVALID, data[1..];
    }
    if size > |data| {
      return INVALID, [];
    }
    ValueFits(data[..size]);
    c := ExtractCharacter(data, size);
    var truncated;
    truncated, size := CheckContinuations(data, size);
    rest := data[size..];
    if truncated {
      return INVALID, rest;
    }
    if c < MinChar(size) {
      return INVALID, rest;
    }
    if c >= 0xd800 && c <= 0xdfff {
      return INVALID, rest;
    }
    if c >= 0xfffe && c <= 0xffff {
      return INVALID, rest;
    }
  }

  lemma {:induction false} GroupsAt(c: UInt32, k: nat, i: nat)
    requires i < k
    ensures Groups(c, k)[i] == 0x80 + Upper(c, k - 1 - i) % 0x40
  {
    if i < k - 1 {
      GroupsAt(c / 0x40, k - 1, i);
    }
  }

  /** An octet of `toUTF8`: `c` shifted right, masked to `range` values, plus a mark. */
  function Field(c: Code, unit: nat, range: nat, mark: byte): byte
    requires unit > 0 && range > 0 && range + mark <= 0x100
  {
    c / unit % range + mark
  }

  lemma TailFields(c: Code)
    ensures Field(c, 0x1, 0x40, 0x80) == 0x80 + Upper(c, 0) % 0x40
    ensures Field(c, 0x40, 0x40, 0x80) == 0x80 + Upper(c, 1) % 0x40
    ensures Field(c, 0x1000, 0x40, 0x80) == 0x80 + Upper(c, 2) % 0x40
    ensures Field(c, 0x4_0000, 0x40, 0x80) == 0x80 + Upper(c, 3) % 0x40
    ensures Field(c, 0x100_0000, 0x40, 0x80) == 0x80 + Upper(c, 4) % 0x40
  {
    UpperUnrolled(c);
  }

  lemma LeadFields(c: Code)
    ensures SizeOf(c) == 1 ==> c == Encode(c)[0]
    ensures SizeOf(c) == 2 ==> Field(c, 0x40, 0x20, 0xc0) == Encode(c)[0]
    ensures SizeOf(c) == 3 ==> Field(c, 0x1000, 0x10, 0xe0) == Encode(c)[0]
    ensures SizeOf(c) == 4 ==> Field(c, 0x4_0000, 0x08, 0xf0) == Encode(c)[0]
    ensures SizeOf(c) == 5 ==> Field(c, 0x100_0000, 0x04, 0xf8) == Encode(c)[0]
    ensures SizeOf(c) == 6 ==> Field(c, 0x4000_0000, 0x02, 0xfc) == Encode(c)[0]
  {
    hide Encode, Upper;
    UpperUnrolled(c);
    UpperFits(c);
    EncodeAt(c, 0);
  }

  lemma EncodeAt(c: Code, i: nat)
    requires i < SizeOf(c)
    ensures Encode(c)[i] ==
      if i == 0 then Mark(SizeOf(c)) + Upper(c, SizeOf(c) - 1) else 0x80 + Upper(c, SizeOf(c) - 1 - i) % 0x40
  {
    if i > 0 {
      GroupsAt(c, SizeOf(c) - 1, i - 1);
    }
  }

  /** The octets `toUTF8` stores in its local buffer. */
  method WriteOctets(c: Code) returns (data: seq<byte>)
    ensures data == Encode(c)
  {
    hide Encode, Field, Upper;
    LeadFields(c);
    TailFields(c);
    forall i | 1 <= i < SizeOf(c) ensures Encode(c)[i] == 0x80 + Upper(c, SizeOf(c) - 1 - i) % 0x40 {
      EncodeAt(c, i);
    }
    if c < 0x80 {
      data := [c];
    } else if c < 0x800 {
      data := [Field(c, 0x40, 0x20, 0xc0), Field(c, 0x1, 0x40, 0x80)];
    } else if c < 0x1_0000 {
      data := [Field(c, 0x1000, 0x10, 0xe0), Field(c, 0x40, 0x40, 0x80), Field(c, 0x1, 0x40, 0x80)];
    } else if c < 0x20_0000 {
      data := [Field(c, 0x4_0000, 0x08, 0xf0), Field(c, 0x1000, 0x40, 0x80), Field(c, 0x40, 0x40, 0x80),
               Field(c, 0x1, 0x40, 0x80)];
    } else if c < 0x400_0000 {
      data := [Field(c, 0x100_0000, 0x04, 0xf8), Field(c, 0x4_0000, 0x40, 0x80), Field(c, 0x1000, 0x40, 0x80),
               Field(c, 0x40, 0x40, 0x80), Field(c, 0x1, 0x40, 0x80)];
    } else {
      data := [Field(c, 0x4000_0000, 0x02, 0xfc), Field(c, 0x100_0000, 0x40, 0x80), Field(c, 0x4_0000, 0x40, 0x80),
               Field(c, 0x1000, 0x40, 0x80), Field(c, 0x40, 0x40, 0x80), Field(c, 0x1, 0x40, 0x80)];
    }
  }

  /** `toUTF8`: a character outside the valid range is reported and replaced. */
  method ToUTF8(dst: seq<byte>, c0: UInt32, errors0: bool) returns (dst': seq<byte>, errors: bool)
    ensures dst' == dst + Encode(Sanitize(c0))
    ensures errors <==> errors0 || c0 != Sanitize(c0)
  {
    var c := c0;
    errors := errors0;
    if (c >= 0xd800 && c <= 0xdfff) || c >= 0x8000_0000 {
      errors := true;
      c := REPLACEMENT;
    }
    var data := WriteOctets(c);
    dst' := dst + data;
  }
}
