/** Percent encoding: one encoder for every set of unchanged bytes, and two decoders. */
module PercentCodec {
  import opened Bytes

  const PERCENT: byte := 0x25
  const PLUS: byte := 0x2B
  const SPACE: byte := 0x20

  predicate IsDigit(b: byte) { '0' as int <= b <= '9' as int }
  predicate IsLower(b: byte) { 'a' as int <= b <= 'z' as int }
  predicate IsUpper(b: byte) { 'A' as int <= b <= 'Z' as int }

  predicate IsHexDigit(b: byte) {
    IsDigit(b) || 'a' as int <= b <= 'f' as int || 'A' as int <= b <= 'F' as int
  }

  function CharToHex(x: nat): byte
    requires x < 16
  {
    "0123456789ABCDEF"[x] as int
  }

  function HexValue(x: byte): int {
    var upper := if IsLower(x) then x - ('a' as int - 'A' as int) else x;
    if IsDigit(upper) then upper - '0' as int else upper - 'A' as int + 10
  }

  lemma HexDigits(x: nat)
    requires x < 16
    ensures IsHexDigit(CharToHex(x)) && HexValue(CharToHex(x)) == x
  {
  }

  lemma HexValueRange(b: byte)
    requires IsHexDigit(b)
    ensures 0 <= HexValue(b) < 16
  {
  }

  // ---------------------------------------------------------------------------
  // Encoding
  // ---------------------------------------------------------------------------

  predicate IsAlphaNum(b: byte) { IsDigit(b) || IsLower(b) || IsUpper(b) }

  /** Letters, digits and ! ' ( ) * - . _ ~ */
  predicate InUriComponent(b: byte) {
    IsAlphaNum(b) || b == 0x21 || 0x27 <= b <= 0x2A || b == 0x2D || b == 0x2E || b == 0x5F || b == 0x7E
  }

  /** Letters, digits and ! # $ & ' ( ) * + , - . / : ; = ? @ _ ~ */
  predicate InUri(b: byte) {
    || IsAlphaNum(b) || b == 0x21 || b == 0x23 || b == 0x24 || 0x26 <= b <= 0x2F || b == 0x3A || b == 0x3B
    || b == 0x3D || b == 0x3F || b == 0x40 || b == 0x5F || b == 0x7E
  }

  /** Letters, digits and * + - . / @ _ */
  predicate InEscape(b: byte) {
    IsAlphaNum(b) || b == 0x2A || b == 0x2B || 0x2D <= b <= 0x2F || b == 0x40 || b == 0x5F
  }

  function EncodeByte(kept: byte -> bool, b: byte): seq<byte> {
    if kept(b) then [b] else [PERCENT, CharToHex(b / 16), CharToHex(b % 16)]
  }

  function Encoded(kept: byte -> bool, s: seq<byte>): seq<byte> {
    if s == [] then [] else EncodeByte(kept, s[0]) + Encoded(kept, s[1..])
  }

  lemma {:induction false} EncodedSnoc(kept: byte -> bool, s: seq<byte>, b: byte)
    ensures Encoded(kept, s + [b]) == Encoded(kept, s) + EncodeByte(kept, b)
  {
    if s == [] {
      assert (s + [b])[1..] == [];
    } else {
      assert (s + [b])[1..] == s[1..] + [b];
      EncodedSnoc(kept, s[1..], b);
    }
  }

  lemma EncodedStep(kept: byte -> bool, s: seq<byte>, i: nat)
    requires i < |s|
    ensures Encoded(kept, s[..i + 1]) == Encoded(kept, s[..i]) + EncodeByte(kept, s[i])
  {
    EncodedSnoc(kept, s[..i], s[i]);
    assert s[..i] + [s[i]] == s[..i + 1];
  }

  method DoEncodeAppend(input: seq<byte>, kept: byte -> bool, output: Buffer)
    modifies output
    ensures output.bytes == old(output.bytes) + Encoded(kept, input)
  {
    var i := 0;
    while i < |input|
      invariant i <= |input|
      invariant output.bytes == old(output.bytes) + Encoded(kept, input[..i])
    {
      EncodedStep(kept, input, i);
      if kept(input[i]) {
        output.bytes := output.bytes + [input[i]];
      } else {
        output.bytes := output.bytes + [PERCENT, CharToHex(input[i] / 16), CharToHex(input[i] % 16)];
      }
      i := i + 1;
    }
    assert input[..i] == input;
  }

  method EncodeUriComponent(input: seq<byte>) returns (result: seq<byte>)
    ensures result == Encoded(InUriComponent, input)
  {
    var buffer := new Buffer([]);
    DoEncodeAppend(input, InUriComponent, buffer);
    result := buffer.bytes;
  }

  // ---------------------------------------------------------------------------
  // Decoding
  // ---------------------------------------------------------------------------

  /** Whether decoding succeeds, and the bytes it has produced by then. */
  datatype Outcome = Outcome(ok: bool, output: seq<byte>)

  /** `after` is the byte in memory after the last one; '%' as next-to-last byte reads it. */
  function At(s: seq<byte>, i: nat, after: byte): byte {
    if i < |s| then s[i] else after
  }

  predicate EscapeAt(s: seq<byte>, i: nat, after: byte)
    requires i < |s|
  {
    s[i] == PERCENT && i + 2 <= |s| && IsHexDigit(s[i + 1]) && IsHexDigit(At(s, i + 2, after))
  }

  function EscapedByte(s: seq<byte>, i: nat, after: byte): byte
    requires i < |s| && EscapeAt(s, i, after)
  {
    HexValueRange(s[i + 1]);
    HexValueRange(At(s, i + 2, after));
    16 * HexValue(s[i + 1]) + HexValue(At(s, i + 2, after))
  }

  function PlainByte(b: byte): byte {
    if b == PLUS then SPACE else b
  }

  function Prepend(b: byte, rest: Outcome): Outcome {
    Outcome(rest.ok, [b] + rest.output)
  }

  /** What decoding from position `i` on gives. */
  function Decoded(s: seq<byte>, i: nat, after: byte): Outcome
    decreases |s| - i
  {
    if i >= |s| then Outcome(true, [])
    else if s[i] != PERCENT then Prepend(PlainByte(s[i]), Decoded(s, i + 1, after))
    else if EscapeAt(s, i, after) then
      Prepend(EscapedByte(s, i, after), Decoded(s, i + 3, after))
    else Outcome(false, [])
  }

  /** One round of either decoder: the byte read at `i` and where reading goes on. */
  method ReadByte(s: seq<byte>, i: nat, after: byte) returns (ok: bool, ch: byte, next: nat)
    requires i < |s|
    ensures ok ==> i < next && Decoded(s, i, after) == Prepend(ch, Decoded(s, next, after))
    ensures !ok ==> Decoded(s, i, after) == Outcome(false, [])
  {
    ch, next := 0, i + 1;
    if s[i] == PERCENT {
      if i + 2 > |s| {
        return false, ch, next;
      }
      if !IsHexDigit(s[i + 1]) || !IsHexDigit(At(s, i + 2, after)) {
        return false, ch, next;
      }
      ch, next := EscapedByte(s, i, after), i + 3;
    } else if s[i] == PLUS {
      ch := SPACE;
    } else {
      ch := s[i];
    }
    ok := true;
  }

  /** The copying decoder. It appends what it decodes, up to the first bad escape. */
  method DecodeAppend(input: seq<byte>, after: byte, output: Buffer) returns (ok: bool)
    modifies output
    ensures ok == Decoded(input, 0, after).ok
    ensures output.bytes == old(output.bytes) + Decoded(input, 0, after).output
  {
    var i := 0;
    while i < |input|
      invariant Decoded(input, 0, after).ok == Decoded(input, i, after).ok
      invariant old(output.bytes) + Decoded(input, 0, after).output
             == output.bytes + Decoded(input, i, after).output
      decreases |input| - i
    {
      var more, ch, next := ReadByte(input, i, after);
      if !more {
        return false;
      }
      output.bytes := output.bytes + [ch];
      i := next;
    }
    return true;
  }

  /** Decoding a suffix does not depend on what stands before it. */
  lemma {:induction false} DecodedSuffix(p: seq<byte>, s: seq<byte>, i: nat, after: byte)
    ensures Decoded(p + s, |p| + i, after) == Decoded(s, i, after)
    decreases |s| - i
  {
    if i < |s| {
      assert (p + s)[|p| + i] == s[i];
      if s[i] != PERCENT {
        DecodedSuffix(p, s, i + 1, after);
      } else {
        assert i + 1 < |s| ==> (p + s)[|p| + i + 1] == s[i + 1];
        assert At(p + s, |p| + i + 2, after) == At(s, i + 2, after);
        DecodedSuffix(p, s, i + 3, after);
      }
    }
  }

  /** Decoding from `i` on only reads from `i` on. */
  lemma DecodedTail(s: seq<byte>, t: seq<byte>, i: nat, after: byte)
    requires |s| == |t| && i <= |s| && s[i..] == t[i..]
    ensures Decoded(s, i, after) == Decoded(t, i, after)
  {
    assert s == s[..i] + s[i..] && t == t[..i] + t[i..];
    DecodedSuffix(s[..i], s[i..], 0, after);
    DecodedSuffix(t[..i], t[i..], 0, after);
  }

  /** `done` has been written over the front of `s`, and reading is at `i`. */
  ghost predicate InFlight(s: seq<byte>, bytes: seq<byte>, done: seq<byte>, i: nat) {
    && |done| <= i && |done| <= |s| && bytes == done + s[|done|..]
    && Decoded(s, 0, 0).ok == Decoded(s, i, 0).ok
    && Decoded(s, 0, 0).output == done + Decoded(s, i, 0).output
  }

  /** What has been written does not reach what is still to be read. */
  lemma UnreadKept(s: seq<byte>, bytes: seq<byte>, done: seq<byte>, i: nat, next: nat)
    requires |done| <= i <= next && |done| <= |s| && bytes == done + s[|done|..]
    ensures Decoded(bytes, next, 0) == Decoded(s, next, 0)
  {
    if next <= |s| {
      assert bytes[next..] == s[next..];
      DecodedTail(bytes, s, next, 0);
    }
  }

  lemma Overwritten(s: seq<byte>, done: seq<byte>, ch: byte)
    requires |done| < |s|
    ensures (done + s[|done|..])[|done| := ch] == (done + [ch]) + s[|done| + 1..]
  {
  }

  lemma InFlightStep(s: seq<byte>, bytes: seq<byte>, done: seq<byte>, i: nat, ch: byte, next: nat)
    requires InFlight(s, bytes, done, i) && i < |s| && i < next
    requires Decoded(bytes, i, 0) == Prepend(ch, Decoded(bytes, next, 0))
    ensures InFlight(s, bytes[|done| := ch], done + [ch], next)
  {
    UnreadKept(s, bytes, done, i, i);
    UnreadKept(s, bytes, done, i, next);
    Overwritten(s, done, ch);
    var rest := Decoded(s, next, 0).output;
    assert done + ([ch] + rest) == (done + [ch]) + rest;
  }

  lemma InFlightStop(s: seq<byte>, bytes: seq<byte>, done: seq<byte>, i: nat)
    requires InFlight(s, bytes, done, i)
    requires i >= |bytes| || Decoded(bytes, i, 0) == Outcome(false, [])
    ensures Decoded(s, 0, 0) == Outcome(i >= |bytes|, done)
    ensures i < |bytes| ==> |done| < |s|
    ensures |done| <= |bytes| && bytes[..|done|] == done
  {
    UnreadKept(s, bytes, done, i, i);
    assert done + [] == done;
  }

  /** What the in-place decoder leaves in the string. */
  ghost function InPlace(s: seq<byte>): (t: seq<byte>)
    ensures Decoded(s, 0, 0).ok ==> t == Decoded(s, 0, 0).output
  {
    var d := Decoded(s, 0, 0);
    if d.ok || |d.output| > |s| then d.output else d.output + s[|d.output|..]
  }

  /**
   * The in-place decoder: it writes behind the position it reads, where a string has a zero
   * byte after its end. A failure leaves the rest of the string as it was.
   */
  method Decode(str: Buffer) returns (ok: bool)
    modifies str
    ensures ok == Decoded(old(str.bytes), 0, 0).ok
    ensures str.bytes == InPlace(old(str.bytes))
    ensures !ok ==>
      var s, out := old(str.bytes), Decoded(old(str.bytes), 0, 0).output;
      |out| < |s| == |str.bytes| && str.bytes[..|out|] == out && str.bytes[|out|..] == s[|out|..]
  {
    ghost var s := str.bytes;
    ghost var done: seq<byte> := [];
    var i, writePos := 0, 0;
    while i < |str.bytes|
      invariant writePos == |done| && InFlight(s, str.bytes, done, i)
      decreases |s| - i
    {
      var more, ch, next := ReadByte(str.bytes, i, 0);
      if !more {
        InFlightStop(s, str.bytes, done, i);
        return false;
      }
      InFlightStep(s, str.bytes, done, i, ch, next);
      str.bytes := str.bytes[writePos := ch];
      done, writePos, i := done + [ch], writePos + 1, next;
    }
    InFlightStop(s, str.bytes, done, i);
    str.bytes := str.bytes[..writePos];
    return true;
  }

  // ---------------------------------------------------------------------------
  // Round trips
  // ---------------------------------------------------------------------------

  ghost function PlusAsSpace(s: seq<byte>): seq<byte> {
    seq(|s|, i requires 0 <= i < |s| => PlainByte(s[i]))
  }

  /** One encoded byte is read back as that byte, except that a kept '+' becomes a space. */
  lemma DecodedUnit(kept: byte -> bool, b: byte, rest: seq<byte>, after: byte)
    requires !kept(PERCENT)
    ensures Decoded(EncodeByte(kept, b) + rest, 0, after)
         == Prepend(if kept(b) then PlainByte(b) else b, Decoded(rest, 0, after))
  {
    var unit := EncodeByte(kept, b);
    var s := unit + rest;
    DecodedSuffix(unit, rest, 0, after);
    if !kept(b) {
      HexDigits(b / 16);
      HexDigits(b % 16);
      assert s[0] == PERCENT && s[1] == CharToHex(b / 16) && s[2] == CharToHex(b % 16);
    } else {
      assert s[0] == b;
    }
  }

  /** What comes back from any encoder that escapes '%'. */
  ghost function ReadBack(kept: byte -> bool, s: seq<byte>): seq<byte> {
    if kept(PLUS) then PlusAsSpace(s) else s
  }

  lemma ReadBackStep(kept: byte -> bool, s: seq<byte>)
    requires s != []
    ensures [if kept(s[0]) then PlainByte(s[0]) else s[0]] + ReadBack(kept, s[1..]) == ReadBack(kept, s)
  {
  }

  lemma {:induction false} EncodeThenDecode(kept: byte -> bool, s: seq<byte>, after: byte)
    requires !kept(PERCENT)
    ensures Decoded(Encoded(kept, s), 0, after) == Outcome(true, ReadBack(kept, s))
  {
    if s == [] {
    } else {
      DecodedUnit(kept, s[0], Encoded(kept, s[1..]), after);
      EncodeThenDecode(kept, s[1..], after);
      ReadBackStep(kept, s);
    }
  }

  /** Decoding undoes `EncodeUriComponent` on every byte string. */
  lemma ComponentRoundTrip(s: seq<byte>, after: byte)
    ensures Decoded(Encoded(InUriComponent, s), 0, after) == Outcome(true, s)
  {
    EncodeThenDecode(InUriComponent, s, after);
  }

  /** The other two encoders keep '+', and are undone exactly on strings without one. */
  lemma UriRoundTripExactlyWhen(s: seq<byte>, after: byte)
    ensures Decoded(Encoded(InUri, s), 0, after) == Outcome(true, s) <==> PLUS !in s
    ensures Decoded(Encoded(InEscape, s), 0, after) == Outcome(true, s) <==> PLUS !in s
  {
    EncodeThenDecode(InUri, s, after);
    EncodeThenDecode(InEscape, s, after);
    if PLUS in s {
      var i :| 0 <= i < |s| && s[i] == PLUS;
      assert PlusAsSpace(s)[i] == SPACE;
    } else {
      assert PlusAsSpace(s) == s;
    }
  }

  /** Such a string: '+' comes back as a space. */
  lemma PlusWitness(after: byte)
    ensures Decoded(Encoded(InUri, [PLUS]), 0, after) == Outcome(true, [SPACE])
  {
    EncodeThenDecode(InUri, [PLUS], after);
    assert PlusAsSpace([PLUS]) == [SPACE];
  }

  /** Encoding and then decoding in place leaves any byte string as it was. */
  method EncodeDecodeInPlace(s: seq<byte>) returns (buffer: Buffer, ok: bool)
    ensures ok && buffer.bytes == s
  {
    var encoded := EncodeUriComponent(s);
    buffer := new Buffer(encoded);
    ok := Decode(buffer);
    ComponentRoundTrip(s, 0);
  }

  // ---------------------------------------------------------------------------
  // The two decoders
  // ---------------------------------------------------------------------------

  /**
   * The copying decoder uses the byte after its input: decoding gets as far as an escape that
   * starts at the next-to-last byte, and a hexadecimal digit follows in memory.
   */
  ghost predicate ReadsBeyond(s: seq<byte>, i: nat, after: byte) {
    && i + 2 <= |s|
    && s[|s| - 2] == PERCENT && IsHexDigit(s[|s| - 1]) && IsHexDigit(after)
    && Decoded(s[..|s| - 2], i, 0).ok
  }

  lemma PrependInjective(b: byte, x: Outcome, y: Outcome)
    requires Prepend(b, x) == Prepend(b, y)
    ensures x == y
  {
    assert ([b] + x.output)[1..] == x.output && ([b] + y.output)[1..] == y.output;
  }

  lemma PrependDiffers(b: byte, x: Outcome, y: Outcome)
    ensures Prepend(b, x) != Prepend(b, y) <==> x != y
  {
    if Prepend(b, x) == Prepend(b, y) {
      PrependInjective(b, x, y);
    }
  }

  /** The decoders disagree exactly on inputs that read beyond their end. */
  lemma {:induction false} DecodersDifferExactlyWhen(s: seq<byte>, i: nat, after: byte)
    requires i <= |s|
    ensures Decoded(s, i, after) != Decoded(s, i, 0) <==> ReadsBeyond(s, i, after)
    decreases |s| - i
  {
    ghost var p := if |s| < 2 then [] else s[..|s| - 2];
    if i == |s| {
    } else if s[i] != PERCENT {
      DecodersDifferExactlyWhen(s, i + 1, after);
      PrependDiffers(PlainByte(s[i]), Decoded(s, i + 1, after), Decoded(s, i + 1, 0));
      assert i < |p| ==> p[i] == s[i];
    } else if i + 3 <= |s| {
      DecodersDifferExactlyWhen(s, i + 3, after);
      if EscapeAt(s, i, 0) {
        PrependDiffers(EscapedByte(s, i, 0), Decoded(s, i + 3, after), Decoded(s, i + 3, 0));
      }
      assert i < |p| ==> p[i] == s[i];
      assert i + 1 < |p| ==> p[i + 1] == s[i + 1];
      assert i + 2 < |p| ==> p[i + 2] == s[i + 2];
    }
  }

  /** Such an input: "%4" with the digit 1 after it in memory is read as the letter A. */
  lemma BeyondWitness()
    ensures Decoded([PERCENT, '4' as int], 0, '1' as int) == Outcome(true, ['A' as int])
    ensures Decoded([PERCENT, '4' as int], 0, 0) == Outcome(false, [])
  {
    var s: seq<byte> := [PERCENT, '4' as int];
    assert EscapedByte(s, 0, '1' as int) == 'A' as int;
    assert Decoded(s, 3, '1' as int) == Outcome(true, []);
  }

  // ---------------------------------------------------------------------------
  // What is encoded, and what the decoders read
  // ---------------------------------------------------------------------------

  /** The bytes each encoder leaves unchanged, by code and by the lists of the original. */
  lemma KeptSets(b: byte)
    ensures var alphaNum := 48 <= b <= 57 || 65 <= b <= 90 || 97 <= b <= 122;
            && (InUriComponent(b) <==> alphaNum || b as char in "!'()*-._~")
            && (InUri(b) <==> alphaNum || b as char in "!#$&'()*+," || b as char in "-./:;=?@_~")
            && (InEscape(b) <==> alphaNum || b as char in "*+-./@_")
  {
  }

  /** Two upper-case hexadecimal digits, from `i` on. */
  ghost predicate IsUpperHex(out: seq<byte>, i: nat) {
    i + 2 <= |out| && out[i] as char in "0123456789ABCDEF" && out[i + 1] as char in "0123456789ABCDEF"
  }

  /** Unchanged bytes, and '%' with two upper-case digits. */
  ghost predicate IsEncodedText(kept: byte -> bool, out: seq<byte>) {
    out == [] ||
    if kept(out[0]) then IsEncodedText(kept, out[1..])
    else out[0] as char == '%' && IsUpperHex(out, 1) && IsEncodedText(kept, out[3..])
  }

  lemma UnitText(kept: byte -> bool, b: byte, rest: seq<byte>)
    requires !kept(PERCENT) && IsEncodedText(kept, rest)
    ensures IsEncodedText(kept, EncodeByte(kept, b) + rest)
  {
    var unit := EncodeByte(kept, b);
    var out := unit + rest;
    assert out[|unit|..] == rest;
  }

  ghost function Changed(kept: byte -> bool, s: seq<byte>): nat {
    if s == [] then 0 else (if kept(s[0]) then 0 else 1) + Changed(kept, s[1..])
  }

  /** An encoding has nothing but unchanged bytes and upper-case escapes, and two bytes more for
      each byte that is not kept. */
  lemma {:induction false} EncodedAlphabet(kept: byte -> bool, s: seq<byte>)
    requires !kept(PERCENT)
    ensures IsEncodedText(kept, Encoded(kept, s)) && |Encoded(kept, s)| == |s| + 2 * Changed(kept, s)
  {
    if s != [] {
      EncodedAlphabet(kept, s[1..]);
      UnitText(kept, s[0], Encoded(kept, s[1..]));
    }
  }

  const HEX: string := "0123456789abcdefABCDEF"

  function HexAt(k: nat): int {
    if k < 16 then k else k - 6
  }

  lemma HexByIndex(b: byte, k: nat)
    requires k < |HEX| && b as char == HEX[k]
    ensures IsHexDigit(b) && HexValue(b) == HexAt(k)
  {
  }

  lemma HexOnly(b: byte)
    ensures IsHexDigit(b) ==> b as char in HEX
  {
    if IsHexDigit(b) {
      var k := if b <= 57 then b - 48 else if b <= 70 then b - 65 + 16 else b - 97 + 10;
      assert HEX[k] == b as char;
    }
  }

  /** Every byte but '%' and '+' is read as it is, and '+' as a space. */
  lemma PlainBytesDecode(s: seq<byte>, i: nat, after: byte)
    requires i < |s| && s[i] as char != '%'
    ensures Decoded(s, i, after) == Prepend(if s[i] as char == '+' then 32 else s[i], Decoded(s, i + 1, after))
  {
  }

  /** '%' and two hexadecimal digits of either case are read as the byte they stand for. */
  lemma EscapesDecode(s: seq<byte>, i: nat, h: nat, l: nat, after: byte)
    requires i + 2 < |s| && s[i] as char == '%' && h < |HEX| && l < |HEX|
    requires s[i + 1] as char == HEX[h] && s[i + 2] as char == HEX[l]
    ensures Decoded(s, i, after) == Prepend(16 * HexAt(h) + HexAt(l), Decoded(s, i + 3, after))
  {
    HexByIndex(s[i + 1], h);
    HexByIndex(s[i + 2], l);
  }

  /** Any other '%' is where decoding fails, unless it is the next-to-last byte. */
  lemma OtherEscapesFail(s: seq<byte>, i: nat, after: byte)
    requires i < |s| && s[i] as char == '%' && i + 2 != |s|
    requires i + 2 < |s| ==> s[i + 1] as char !in HEX || s[i + 2] as char !in HEX
    ensures Decoded(s, i, after) == Outcome(false, [])
  {
    if i + 2 < |s| {
      HexOnly(s[i + 1]);
      HexOnly(s[i + 2]);
    }
  }
}
