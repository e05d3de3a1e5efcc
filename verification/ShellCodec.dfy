/** Backslash escapes of shell words.

Reading at the end of a string gives its terminating zero byte. `UnescapeChar` can leave its
result unset; `junk` is whatever the caller's variable holds then, for each position. */
module ShellCodec {
  import opened Bytes

  const BACKSLASH: byte := 0x5C

  // ---------------------------------------------------------------------------
  // Escaping
  // ---------------------------------------------------------------------------

  /** The letter after the backslash for a control character, if it has one. */
  function EscapeLetter(b: byte): (letter: int)
    ensures letter == -1 || 'a' as int <= letter <= 'z' as int
  {
    match b
    case 7 => 'a' as int
    case 8 => 'b' as int
    case 12 => 'f' as int
    case 10 => 'n' as int
    case 13 => 'r' as int
    case 9 => 't' as int
    case 11 => 'v' as int
    case _ => -1
  }

  /** Space ! " # $ & ( ) * , : ; ? @ [ \ ] ` { } */
  predicate NeedsBackslash(b: byte) {
    || 0x20 <= b <= 0x24 || b == 0x26 || 0x28 <= b <= 0x2A || b == 0x2C || b == 0x3A || b == 0x3B
    || b == 0x3F || b == 0x40 || 0x5B <= b <= 0x5D || b == 0x60 || b == 0x7B || b == 0x7D
  }

  function EscapeByte(b: byte): seq<byte> {
    if EscapeLetter(b) != -1 then [BACKSLASH, EscapeLetter(b)]
    else if NeedsBackslash(b) then [BACKSLASH, b]
    else [b]
  }

  function Escaped(s: seq<byte>): seq<byte> {
    if s == [] then [] else EscapeByte(s[0]) + Escaped(s[1..])
  }

  lemma {:induction false} EscapedSnoc(s: seq<byte>, b: byte)
    ensures Escaped(s + [b]) == Escaped(s) + EscapeByte(b)
  {
    if s == [] {
      assert (s + [b])[1..] == [];
    } else {
      assert (s + [b])[1..] == s[1..] + [b];
      EscapedSnoc(s[1..], b);
    }
  }

  lemma EscapedStep(s: seq<byte>, i: nat)
    requires i < |s|
    ensures Escaped(s[..i + 1]) == Escaped(s[..i]) + EscapeByte(s[i])
  {
    EscapedSnoc(s[..i], s[i]);
    assert s[..i] + [s[i]] == s[..i + 1];
  }

  method ShellEscape(str: seq<byte>) returns (result: seq<byte>)
    ensures result == Escaped(str)
  {
    result := [];
    var i := 0;
    while i < |str|
      invariant i <= |str| && result == Escaped(str[..i])
    {
      EscapedStep(str, i);
      if EscapeLetter(str[i]) != -1 {
        result := result + [BACKSLASH, EscapeLetter(str[i])];
      } else {
        if NeedsBackslash(str[i]) {
          result := result + [BACKSLASH];
        }
        result := result + [str[i]];
      }
      i := i + 1;
    }
    assert str[..i] == str;
  }

  // ---------------------------------------------------------------------------
  // Unescaping
  // ---------------------------------------------------------------------------

  function At(s: seq<byte>, i: nat): byte {
    if i < |s| then s[i] else 0
  }

  /** Of the lower-case digits only 'a' is one. */
  function DecodeHex(c: byte): (n: int)
    ensures -1 <= n < 16
  {
    if '0' as int <= c <= '9' as int then c - '0' as int
    else if 'A' as int <= c <= 'F' as int then c - 'A' as int + 10
    else if c == 'a' as int then 10
    else -1
  }

  predicate IsDigit(b: byte) {
    '0' as int <= b <= '9' as int
  }

  /** The control character for a letter, if it has one. */
  function ControlOf(e: byte): int {
    if e == 'a' as int then 7
    else if e == 'b' as int then 8
    else if e == 'e' as int || e == 'E' as int then 27
    else if e == 'f' as int then 12
    else if e == 'n' as int then 10
    else if e == 'r' as int then 13
    else if e == 't' as int then 9
    else if e == 'v' as int then 11
    else if e == BACKSLASH then BACKSLASH
    else -1
  }

  /** How many bytes an escape takes, and the byte it stands for; -1 leaves that unset. */
  datatype Reading = Reading(size: nat, value: int)

  /** The two hexadecimal digits of an escape; a zero digit does not count as one. */
  function HexReading(s: seq<byte>, p: nat): (r: Reading)
    ensures 1 <= r.size <= 3 && -1 <= r.value < 256
  {
    if p < |s| && DecodeHex(s[p]) > 0 then
      if p + 1 < |s| && DecodeHex(s[p + 1]) > 0 then
        Reading(3, 16 * DecodeHex(s[p]) + DecodeHex(s[p + 1]))
      else Reading(2, DecodeHex(s[p]))
    else Reading(1, -1)
  }

  /** Up to three octal digits in an eight-bit `char`. The later ones may be 8 or 9, and the
      third is not skipped: it is read again as an ordinary byte. */
  function OctalReading(s: seq<byte>, e: byte, p: nat): (r: Reading)
    requires '0' as int <= e <= '7' as int
    ensures 1 <= r.size <= 2 && 0 <= r.value < 256
  {
    var n := e - '0' as int;
    if IsDigit(At(s, p)) then
      var n2 := (8 * n + (At(s, p) - '0' as int)) % 256;
      if IsDigit(At(s, p + 1)) then Reading(2, (8 * n2 + (At(s, p + 1) - '0' as int)) % 256)
      else Reading(2, n2)
    else Reading(1, n)
  }

  /** `UnescapeChar` at `pos`, just after a backslash. */
  function UnescapeChar(s: seq<byte>, pos: nat): (r: Reading)
    ensures -1 <= r.value < 256
  {
    if pos >= |s| then Reading(0, -1)
    else
      var e := s[pos];
      if ControlOf(e) != -1 then Reading(1, ControlOf(e))
      else if e == 'x' as int || e == 'X' as int then HexReading(s, pos + 1)
      else if '0' as int <= e <= '7' as int then OctalReading(s, e, pos + 1)
      else Reading(0, -1)
  }

  /** One round of the loop: the byte it appends, and where it goes on. */
  function UnescapeStep(s: seq<byte>, pos: nat, junk: nat -> byte): (r: (byte, nat))
    requires pos < |s|
    ensures pos < r.1
  {
    if s[pos] != BACKSLASH then (s[pos], pos + 1)
    else
      var r := UnescapeChar(s, pos + 1);
      if r.size > 0 then (if r.value == -1 then junk(pos) else r.value, pos + 1 + r.size)
      else (At(s, pos + 1), pos + 2)
  }

  function Unescaped(s: seq<byte>, pos: nat, junk: nat -> byte): seq<byte>
    decreases |s| - pos
  {
    if pos >= |s| then []
    else
      var (b, next) := UnescapeStep(s, pos, junk);
      [b] + Unescaped(s, next, junk)
  }

  /** Appends the unescaped string to `result`. */
  method ShellUnescape(str: seq<byte>, result: Buffer, junk: nat -> byte) returns (ok: bool)
    modifies result
    ensures ok && result.bytes == old(result.bytes) + Unescaped(str, 0, junk)
  {
    var pos := 0;
    while pos < |str|
      invariant old(result.bytes) + Unescaped(str, 0, junk)
             == result.bytes + Unescaped(str, pos, junk)
      decreases |str| - pos
    {
      ghost var before := pos;
      var c := str[pos];
      pos := pos + 1;
      if c == BACKSLASH {
        var r := UnescapeChar(str, pos);
        if r.size > 0 {
          c := if r.value == -1 then junk(pos - 1) else r.value;
          pos := pos + r.size;
        } else {
          c := At(str, pos);
          pos := pos + 1;
        }
      }
      assert UnescapeStep(str, before, junk) == (c, pos);
      result.bytes := result.bytes + [c];
    }
    ok := true;
  }

  // ---------------------------------------------------------------------------
  // Properties
  // ---------------------------------------------------------------------------

  lemma EscapeLetterRead(b: byte)
    requires EscapeLetter(b) != -1
    ensures ControlOf(EscapeLetter(b)) == b
  {
  }

  lemma BackslashedControl(b: byte)
    requires NeedsBackslash(b)
    ensures ControlOf(b) == if b == BACKSLASH then b else -1
  {
  }

  lemma BackslashedOther(b: byte)
    requires NeedsBackslash(b)
    ensures b != 'x' as int && b != 'X' as int && !('0' as int <= b <= '7' as int)
  {
  }

  /** One escaped byte is read back as that byte, whatever follows it. */
  lemma UnitRead(u: seq<byte>, pos: nat, b: byte, junk: nat -> byte)
    requires pos + |EscapeByte(b)| <= |u|
    requires u[pos..pos + |EscapeByte(b)|] == EscapeByte(b)
    ensures UnescapeStep(u, pos, junk) == (b, pos + |EscapeByte(b)|)
  {
    var unit := EscapeByte(b);
    assert u[pos] == unit[0];
    if EscapeLetter(b) != -1 {
      EscapeLetterRead(b);
      assert u[pos + 1] == unit[1];
    } else if NeedsBackslash(b) {
      BackslashedControl(b);
      BackslashedOther(b);
      assert u[pos + 1] == unit[1];
    }
  }

  lemma SuffixCuts(u: seq<byte>, pos: nat, unit: seq<byte>, rest: seq<byte>)
    requires pos <= |u| && u[pos..] == unit + rest
    ensures pos + |unit| <= |u| && u[pos..pos + |unit|] == unit && u[pos + |unit|..] == rest
  {
    assert u[pos..pos + |unit|] == (unit + rest)[..|unit|];
    assert u[pos + |unit|..] == (unit + rest)[|unit|..];
  }

  /** `ShellUnescape` undoes `ShellEscape` on every byte string, and never reads junk. */
  lemma {:induction false} EscapeThenUnescape(u: seq<byte>, pos: nat, s: seq<byte>,
                                              junk: nat -> byte)
    requires pos <= |u| && u[pos..] == Escaped(s)
    ensures Unescaped(u, pos, junk) == s
    decreases |s|
  {
    if s != [] {
      var unit, rest := EscapeByte(s[0]), Escaped(s[1..]);
      SuffixCuts(u, pos, unit, rest);
      UnitRead(u, pos, s[0], junk);
      EscapeThenUnescape(u, pos + |unit|, s[1..], junk);
    }
  }

  method EscapeUnescape(s: seq<byte>, junk: nat -> byte) returns (buffer: Buffer)
    ensures buffer.bytes == s
  {
    var escaped := ShellEscape(s);
    buffer := new Buffer([]);
    var _ := ShellUnescape(escaped, buffer, junk);
    assert escaped[0..] == escaped;
    EscapeThenUnescape(escaped, 0, s, junk);
  }

  /** Unescaping from `pos` meets a hexadecimal escape without a digit. */
  predicate ReadsJunk(s: seq<byte>, pos: nat)
    decreases |s| - pos
  {
    pos < |s| &&
    ((s[pos] == BACKSLASH && UnescapeChar(s, pos + 1).size > 0
      && UnescapeChar(s, pos + 1).value == -1)
     || ReadsJunk(s, UnescapeStep(s, pos, _ => 0).1))
  }

  /** Without one, the unset variable never shows. */
  lemma {:induction false} NoJunkNoDifference(s: seq<byte>, pos: nat, j: nat -> byte, k: nat -> byte)
    requires !ReadsJunk(s, pos)
    ensures Unescaped(s, pos, j) == Unescaped(s, pos, k)
    decreases |s| - pos
  {
    if pos < |s| {
      assert UnescapeStep(s, pos, j) == UnescapeStep(s, pos, k) == UnescapeStep(s, pos, _ => 0);
      NoJunkNoDifference(s, UnescapeStep(s, pos, j).1, j, k);
    }
  }

  /** With one, it does. */
  lemma {:induction false} JunkShows(s: seq<byte>, pos: nat, j: nat -> byte, k: nat -> byte)
    requires ReadsJunk(s, pos) && forall i :: j(i) != k(i)
    ensures Unescaped(s, pos, j) != Unescaped(s, pos, k)
    decreases |s| - pos
  {
    var (b, next) := UnescapeStep(s, pos, j);
    var (c, after) := UnescapeStep(s, pos, k);
    assert next == after == UnescapeStep(s, pos, _ => 0).1;
    assert Unescaped(s, pos, j) == [b] + Unescaped(s, next, j);
    assert Unescaped(s, pos, k) == [c] + Unescaped(s, next, k);
    if b == c {
      JunkShows(s, next, j, k);
      assert ([b] + Unescaped(s, next, j))[1..] == Unescaped(s, next, j);
      assert ([b] + Unescaped(s, next, k))[1..] == Unescaped(s, next, k);
    } else {
      assert ([b] + Unescaped(s, next, j))[0] != ([c] + Unescaped(s, next, k))[0];
    }
  }

  /** Such a string: a backslash and an x stand for whatever the variable holds. */
  lemma JunkWitness(junk: nat -> byte)
    ensures Unescaped([BACKSLASH, 'x' as int], 0, junk) == [junk(0)]
  {
    var s: seq<byte> := [BACKSLASH, 'x' as int];
    assert UnescapeStep(s, 0, junk) == (junk(0), 2);
    assert Unescaped(s, 2, junk) == [];
  }

  // ---------------------------------------------------------------------------
  // Numeric escapes against their usual reading, as in the shell's $'...'
  // ---------------------------------------------------------------------------

  predicate IsOctal(b: byte) {
    '0' as int <= b <= '7' as int
  }

  /** How many of the next `most` bytes are octal digits, without a gap. */
  function OctalRun(s: seq<byte>, p: nat, most: nat): (n: nat)
    ensures n <= most
    decreases most
  {
    if most == 0 || !IsOctal(At(s, p)) then 0 else 1 + OctalRun(s, p + 1, most - 1)
  }

  function OctalValue(s: seq<byte>, p: nat, n: nat): int {
    if n == 0 then 0 else 8 * OctalValue(s, p, n - 1) + (At(s, p + n - 1) - '0' as int)
  }

  /** All of one to three octal digits are read, and none other. */
  function UsualOctal(s: seq<byte>, pos: nat): (int, nat) {
    var n := OctalRun(s, pos + 1, 3);
    (OctalValue(s, pos + 1, n) % 256, pos + 1 + n)
  }

  lemma OctalRuns(s: seq<byte>, p: nat)
    ensures OctalRun(s, p, 3) ==
            if !IsOctal(At(s, p)) then 0 else if !IsOctal(At(s, p + 1)) then 1 else if !IsOctal(At(s, p + 2)) then 2 else 3
  {
    assert OctalRun(s, p + 2, 1) == if IsOctal(At(s, p + 2)) then 1 + OctalRun(s, p + 3, 0) else 0;
    assert OctalRun(s, p + 1, 2) == if IsOctal(At(s, p + 1)) then 1 + OctalRun(s, p + 2, 1) else 0;
  }

  lemma OctalValues(s: seq<byte>, p: nat)
    ensures var a, b := At(s, p) - '0' as int, At(s, p + 1) - '0' as int;
            OctalValue(s, p, 1) == a && OctalValue(s, p, 2) == 8 * a + b
  {
    assert OctalValue(s, p, 1) == 8 * OctalValue(s, p, 0) + (At(s, p) - '0' as int);
    assert OctalValue(s, p, 2) == 8 * OctalValue(s, p, 1) + (At(s, p + 1) - '0' as int);
  }

  /** What an octal escape is read as, by how many digits follow its first. */
  lemma OctalStep(s: seq<byte>, pos: nat, junk: nat -> byte)
    requires pos + 1 < |s| && s[pos] == BACKSLASH && IsOctal(s[pos + 1])
    ensures var a, b, c := s[pos + 1] - '0' as int, At(s, pos + 2) - '0' as int, At(s, pos + 3) - '0' as int;
            UnescapeStep(s, pos, junk) ==
            if !IsDigit(At(s, pos + 2)) then (a, pos + 2)
            else if !IsDigit(At(s, pos + 3)) then (8 * a + b, pos + 3)
            else ((8 * (8 * a + b) + c) % 256, pos + 3)
  {
    assert ControlOf(s[pos + 1]) == -1;
  }

  lemma NotOctal(n: int, d: int)
    requires 0 <= n < 64 && 8 <= d <= 9
    ensures (8 * n + d) % 256 != n
  {
    var x := 8 * n + d;
    assert x % 256 == if x < 256 then x else if x < 512 then x - 256 else x - 512;
  }

  lemma UsualOctalIs(s: seq<byte>, pos: nat)
    requires IsOctal(At(s, pos + 1))
    ensures var a, b := At(s, pos + 1) - '0' as int, At(s, pos + 2) - '0' as int;
            if !IsOctal(At(s, pos + 2)) then UsualOctal(s, pos) == (a, pos + 2)
            else if !IsOctal(At(s, pos + 3)) then UsualOctal(s, pos) == (8 * a + b, pos + 3)
            else UsualOctal(s, pos).1 == pos + 4
  {
    OctalRuns(s, pos + 1);
    OctalValues(s, pos + 1);
  }

  /** An octal escape is read as usual exactly if it has one digit and no digit follows, or two
      octal digits and no digit follows: a third digit is used but not passed, and 8 and 9 are
      taken for octal digits. */
  lemma OctalAsUsualExactlyWhen(s: seq<byte>, pos: nat, junk: nat -> byte)
    requires pos + 1 < |s| && s[pos] == BACKSLASH && IsOctal(s[pos + 1])
    ensures UnescapeStep(s, pos, junk) == UsualOctal(s, pos) <==>
            !IsDigit(At(s, pos + 2)) || (IsOctal(At(s, pos + 2)) && !IsDigit(At(s, pos + 3)))
  {
    OctalStep(s, pos, junk);
    UsualOctalIs(s, pos);
    if IsOctal(At(s, pos + 2)) && IsDigit(At(s, pos + 3)) && !IsOctal(At(s, pos + 3)) {
      NotOctal(8 * (s[pos + 1] - '0' as int) + (At(s, pos + 2) - '0' as int), At(s, pos + 3) - '0' as int);
    }
  }

  lemma TwoRounds(s: seq<byte>, pos: nat, junk: nat -> byte, b: byte, next: nat)
    requires pos < |s| && UnescapeStep(s, pos, junk) == (b, next) && next < |s| && s[next] != BACKSLASH
    ensures Unescaped(s, pos, junk) == [b, s[next]] + Unescaped(s, next + 1, junk)
  {
    assert Unescaped(s, next, junk) == [s[next]] + Unescaped(s, next + 1, junk);
    assert Unescaped(s, pos, junk) == [b] + Unescaped(s, next, junk);
  }

  /** Three digits give the byte they stand for, and then the third one again. */
  lemma ThreeOctalDigits(s: seq<byte>, pos: nat, junk: nat -> byte)
    requires pos + 3 < |s| && s[pos] == BACKSLASH
    requires IsOctal(s[pos + 1]) && IsDigit(s[pos + 2]) && IsDigit(s[pos + 3])
    ensures var zero := '0' as int;
            Unescaped(s, pos, junk)
            == [(64 * (s[pos + 1] - zero) + 8 * (s[pos + 2] - zero) + (s[pos + 3] - zero)) % 256, s[pos + 3]]
             + Unescaped(s, pos + 4, junk)
  {
    OctalStep(s, pos, junk);
    TwoRounds(s, pos, junk, UnescapeStep(s, pos, junk).0, pos + 3);
  }

  lemma OctalWitness(junk: nat -> byte)
    ensures Unescaped([BACKSLASH, '1' as int, '0' as int, '1' as int], 0, junk) == ['A' as int, '1' as int]
  {
    var s: seq<byte> := [BACKSLASH, '1' as int, '0' as int, '1' as int];
    ThreeOctalDigits(s, 0, junk);
    assert Unescaped(s, 4, junk) == [];
  }

  /** The value of a hexadecimal digit of either case, or -1. */
  function HexValue(b: byte): (n: int)
    ensures -1 <= n < 16
  {
    if IsDigit(b) then b - '0' as int
    else if 'A' as int <= b <= 'F' as int then b - 'A' as int + 10
    else if 'a' as int <= b <= 'f' as int then b - 'a' as int + 10
    else -1
  }

  /** The digits 1 to 9, A to F and a. */
  predicate Recognized(b: byte) {
    '1' as int <= b <= '9' as int || 'A' as int <= b <= 'F' as int || b == 'a' as int
  }

  lemma RecognizedDigits(b: byte)
    ensures DecodeHex(b) > 0 <==> Recognized(b)
    ensures Recognized(b) ==> DecodeHex(b) == HexValue(b)
  {
  }

  /** All of one or two hexadecimal digits are read. */
  function UsualHex(s: seq<byte>, pos: nat): (int, nat) {
    var h, l := HexValue(At(s, pos + 2)), HexValue(At(s, pos + 3));
    if l >= 0 then (16 * h + l, pos + 4) else (h, pos + 3)
  }

  predicate IsHexEscape(s: seq<byte>, pos: nat) {
    pos + 2 < |s| && s[pos] == BACKSLASH && (s[pos + 1] == 'x' as int || s[pos + 1] == 'X' as int)
    && HexValue(s[pos + 2]) >= 0
  }

  lemma HexStep(s: seq<byte>, pos: nat, junk: nat -> byte)
    requires IsHexEscape(s, pos)
    ensures UnescapeStep(s, pos, junk) ==
            if !Recognized(s[pos + 2]) then (junk(pos), pos + 2)
            else if Recognized(At(s, pos + 3)) then (16 * HexValue(s[pos + 2]) + HexValue(s[pos + 3]), pos + 4)
            else (HexValue(s[pos + 2]), pos + 3)
  {
    RecognizedDigits(s[pos + 2]);
    RecognizedDigits(At(s, pos + 3));
    assert ControlOf(s[pos + 1]) == -1;
  }

  /** A hexadecimal escape with a digit is read as usual exactly if its digits are all among those
      recognized, whatever the unset variable holds. */
  lemma HexAsUsualExactlyWhen(s: seq<byte>, pos: nat, junk: nat -> byte)
    requires IsHexEscape(s, pos)
    ensures UnescapeStep(s, pos, junk) == UsualHex(s, pos) <==>
            Recognized(s[pos + 2]) && (HexValue(At(s, pos + 3)) >= 0 ==> Recognized(At(s, pos + 3)))
  {
    HexStep(s, pos, junk);
  }

  /** Two digits alone stand for one byte, with their value, exactly in that case. */
  lemma TwoHexDigits(h: byte, l: byte, junk: nat -> byte)
    requires HexValue(h) >= 0 && HexValue(l) >= 0
    ensures Unescaped([BACKSLASH, 'x' as int, h, l], 0, junk) ==
            if !Recognized(h) then [junk(0), h, l]
            else if !Recognized(l) then [HexValue(h), l]
            else [16 * HexValue(h) + HexValue(l)]
    ensures Unescaped([BACKSLASH, 'x' as int, h, l], 0, junk) == [16 * HexValue(h) + HexValue(l)]
            <==> Recognized(h) && Recognized(l)
  {
    var s: seq<byte> := [BACKSLASH, 'x' as int, h, l];
    HexStep(s, 0, junk);
    assert Unescaped(s, 4, junk) == [];
    assert Unescaped(s, 3, junk) == [l];
    assert Unescaped(s, 2, junk) == [h] + Unescaped(s, 3, junk);
    var (b, next) := UnescapeStep(s, 0, junk);
    assert Unescaped(s, 0, junk) == [b] + Unescaped(s, next, junk);
  }

  /** A lower-case digit other than 'a', and a zero, are not read. */
  lemma HexWitness(junk: nat -> byte)
    ensures Unescaped([BACKSLASH, 'x' as int, '4' as int, 'b' as int], 0, junk) == [4, 'b' as int]
    ensures Unescaped([BACKSLASH, 'x' as int, '4' as int, '0' as int], 0, junk) == [4, '0' as int]
  {
    TwoHexDigits('4' as int, 'b' as int, junk);
    TwoHexDigits('4' as int, '0' as int, junk);
  }

  // ---------------------------------------------------------------------------
  // What is escaped, and what every escape stands for
  // ---------------------------------------------------------------------------

  const SPECIAL: string := " !\"#$&()*,:;?@[\\]`{}"

  /** Neither one of the control characters 7 to 13 nor in the list above. */
  predicate IsPlain(b: byte) {
    !(7 <= b <= 13) && b as char !in SPECIAL
  }

  /** Plain bytes stay as they are, control characters become a letter, and all others get a
      backslash. */
  lemma EscapeByteExactly(b: byte)
    ensures if IsPlain(b) then EscapeByte(b) == [b]
            else EscapeByte(b) == [BACKSLASH, if 7 <= b <= 13 then "abtnvfr"[b - 7] as int else b]
    ensures BACKSLASH as char == '\\' && !IsPlain(BACKSLASH)
  {
    PlainExactly(b);
    PlainExactly(BACKSLASH);
    ControlLetters(b);
  }

  lemma PlainExactly(b: byte)
    ensures IsPlain(b) <==> !(7 <= b <= 13) && !NeedsBackslash(b)
  {
    SpecialExactly(b);
  }

  lemma ControlLetters(b: byte)
    ensures EscapeLetter(b) == if 7 <= b <= 13 then "abtnvfr"[b - 7] as int else -1
  {
  }

  lemma SpecialExactly(b: byte)
    ensures b as char in SPECIAL <==> NeedsBackslash(b)
  {
    assert SPECIAL[..10] == " !\"#$&()*," && SPECIAL[10..] == ":;?@[\\]`{}";
    assert SPECIAL == SPECIAL[..10] + SPECIAL[10..];
    assert b as char in " !\"#$&()*," <==> 0x20 <= b <= 0x24 || b == 0x26 || 0x28 <= b <= 0x2A || b == 0x2C;
    assert b as char in ":;?@[\\]`{}" <==>
           b == 0x3A || b == 0x3B || b == 0x3F || b == 0x40 || 0x5B <= b <= 0x5D || b == 0x60 || b == 0x7B || b == 0x7D;
  }

  /** Nothing but plain bytes stands without a backslash before it. */
  ghost predicate IsShellSafe(out: seq<byte>) {
    out == [] ||
    if out[0] == BACKSLASH then |out| >= 2 && IsShellSafe(out[2..]) else IsPlain(out[0]) && IsShellSafe(out[1..])
  }

  lemma UnitSafe(b: byte, rest: seq<byte>)
    requires IsShellSafe(rest)
    ensures IsShellSafe(EscapeByte(b) + rest)
  {
    EscapeByteExactly(b);
    var out := EscapeByte(b) + rest;
    assert out[|EscapeByte(b)|..] == rest;
  }

  /** How many bytes of `s` are not plain. */
  ghost function Specials(s: seq<byte>): nat {
    if s == [] then 0 else (if IsPlain(s[0]) then 0 else 1) + Specials(s[1..])
  }

  /** The output of `ShellEscape` is safe, and longer than its input by one backslash for each
      byte that is not plain. */
  lemma {:induction false} EscapedIsSafe(s: seq<byte>)
    ensures IsShellSafe(Escaped(s)) && |Escaped(s)| == |s| + Specials(s)
  {
    if s != [] {
      EscapedIsSafe(s[1..]);
      EscapeByteExactly(s[0]);
      UnitSafe(s[0], Escaped(s[1..]));
    }
  }

  const LETTERS: string := "abtnvfreE\\"
  const CODES: seq<byte> := [7, 8, 9, 10, 11, 12, 13, 27, 27, 92]

  /** Every letter escape stands for its control character, "\\e" and "\\E" for the escape
      character. */
  lemma LettersRead(s: seq<byte>, pos: nat, i: nat, junk: nat -> byte)
    requires pos + 1 < |s| && s[pos] as char == '\\' && i < |LETTERS| && s[pos + 1] as char == LETTERS[i]
    ensures UnescapeStep(s, pos, junk) == (CODES[i], pos + 2)
  {
  }

  /** A backslash before any other byte that begins no number is dropped; at the very end it reads
      the terminating zero. Without a backslash a byte stands for itself. */
  lemma OthersRead(s: seq<byte>, pos: nat, junk: nat -> byte)
    requires pos < |s|
    ensures s[pos] as char != '\\' ==> UnescapeStep(s, pos, junk) == (s[pos], pos + 1)
    ensures s[pos] as char == '\\' && pos + 1 == |s| ==> UnescapeStep(s, pos, junk) == (0, pos + 2)
    ensures s[pos] as char == '\\' && pos + 1 < |s| && BeginsNoEscape(s[pos + 1]) ==>
              UnescapeStep(s, pos, junk) == (s[pos + 1], pos + 2)
  {
    if pos + 1 < |s| && BeginsNoEscape(s[pos + 1]) {
      NoEscape(s[pos + 1]);
    }
  }

  predicate BeginsNoEscape(e: byte) {
    e as char !in LETTERS && e as char !in "xX01234567"
  }

  lemma NoEscape(e: byte)
    requires BeginsNoEscape(e)
    ensures ControlOf(e) == -1 && e != 'x' as int && e != 'X' as int && !IsOctal(e)
  {
    NoLetter(e);
    NoNumber(e);
  }

  lemma NoLetter(e: byte)
    requires e as char !in LETTERS
    ensures ControlOf(e) == -1
  {
    assert forall i :: 0 <= i < |LETTERS| ==> e as char != LETTERS[i];
    assert LETTERS[0] == 'a' && LETTERS[1] == 'b' && LETTERS[2] == 't' && LETTERS[3] == 'n' && LETTERS[4] == 'v';
    assert LETTERS[5] == 'f' && LETTERS[6] == 'r' && LETTERS[7] == 'e' && LETTERS[8] == 'E' && LETTERS[9] == '\\';
  }

  lemma NoNumber(e: byte)
    requires e as char !in "xX01234567"
    ensures e != 'x' as int && e != 'X' as int && !IsOctal(e)
  {
    var n := "xX01234567";
    assert forall i :: 0 <= i < |n| ==> e as char != n[i];
    assert n[0] == 'x' && n[1] == 'X' && n[2] == '0' && n[3] == '1' && n[4] == '2' && n[5] == '3';
    assert n[6] == '4' && n[7] == '5' && n[8] == '6' && n[9] == '7';
  }
}
