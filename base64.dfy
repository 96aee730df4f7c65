/**
 * Base64 as Python's `codecs` 'base64' codec does it: the alphabet and
 * padding of section 4 of RFC 4648; encoding cuts the input into lines of
 * 57 bytes (76 characters) each ended by a newline, as section 6.8 of
 * RFC 2045 asks; decoding is the lenient one of `binascii.a2b_base64`,
 * which skips every character outside the alphabet and stops at the
 * padding that closes a group.
 */
module Base64 {
  import opened Outcomes
  import Text

  type byte = x: int | 0 <= x < 256
  type sextet = x: int | 0 <= x < 64

  // ---------------------------------------------------------------------
  // The alphabet

  function CharOf(v: sextet): char
  {
    if v < 26 then (65 + v) as char
    else if v < 52 then (97 + v - 26) as char
    else if v < 62 then (48 + v - 52) as char
    else if v == 62 then '+'
    else '/'
  }

  predicate InAlphabet(c: char)
  {
    'A' <= c <= 'Z' || 'a' <= c <= 'z' || '0' <= c <= '9' || c == '+' || c == '/'
  }

  function ValueOf(c: char): (v: sextet)
    requires InAlphabet(c)
    ensures CharOf(v) == c
  {
    if 'A' <= c <= 'Z' then c as int - 65
    else if 'a' <= c <= 'z' then c as int - 97 + 26
    else if '0' <= c <= '9' then c as int - 48 + 52
    else if c == '+' then 62
    else 63
  }

  lemma ValueOfCharOf(v: sextet)
    ensures InAlphabet(CharOf(v)) && ValueOf(CharOf(v)) == v
  {
  }

  // ---------------------------------------------------------------------
  // Encoding

  /** The four characters for three bytes. */
  function Quad(b0: byte, b1: byte, b2: byte): string
  {
    [CharOf(b0 / 4), CharOf(b0 % 4 * 16 + b1 / 16), CharOf(b1 % 16 * 4 + b2 / 64), CharOf(b2 % 64)]
  }

  /** `binascii.b2a_base64` without its newline: padded groups of four characters. */
  function Encode(b: seq<byte>): (s: string)
    ensures |s| == 4 * ((|b| + 2) / 3)
    ensures forall i :: 0 <= i < |s| ==> InAlphabet(s[i]) || s[i] == '='
    decreases |b|
  {
    if |b| == 0 then []
    else if |b| == 1 then [CharOf(b[0] / 4), CharOf(b[0] % 4 * 16), '=', '=']
    else if |b| == 2 then [CharOf(b[0] / 4), CharOf(b[0] % 4 * 16 + b[1] / 16), CharOf(b[1] % 16 * 4), '=']
    else Quad(b[0], b[1], b[2]) + Encode(b[3..])
  }

  /** Bytes per line of `base64.encodebytes` (76 characters). */
  const LineBytes: nat := 57

  /**
   * `codecs.encode(b, 'base64')`, i.e. `base64.encodebytes`: every chunk of
   * 57 bytes encoded on a line of its own, each line ended by a newline.
   */
  function EncodeLines(b: seq<byte>): (s: string)
    ensures forall i :: 0 <= i < |s| ==> InAlphabet(s[i]) || s[i] == '=' || s[i] == '\n'
    ensures b == [] <==> s == []
    decreases |b|
  {
    if b == [] then []
    else if |b| <= LineBytes then Encode(b) + "\n"
    else Encode(b[..LineBytes]) + "\n" + EncodeLines(b[LineBytes..])
  }

  /** The assertion as `assume_role` sends it: the encoding with its newlines removed. */
  function StsAssertion(b: seq<byte>): (s: string)
    ensures '\n' !in s
  {
    Text.RemoveChar(EncodeLines(b), '\n')
  }

  // ---------------------------------------------------------------------
  // Decoding

  /** How many bits of the current group are held back after `quad` data characters, as a bound. */
  function Held(quad: nat): nat
    requires quad < 4
  {
    if quad == 0 then 1 else if quad == 1 then 64 else if quad == 2 then 16 else 4
  }

  function Cons(x: byte, rest: Option<seq<byte>>): Option<seq<byte>>
  {
    match rest
    case None => None
    case Some(r) => Some([x] + r)
  }

  /**
   * The bytes `binascii.a2b_base64` emits for `s` from a state of its loop:
   * `quad` data characters of the current group seen, `left` the bits they
   * hold back, `pads` the '=' counted since the last data character. None is
   * its "Incorrect padding" error.
   */
  function DecodeFrom(s: string, quad: nat, left: nat, pads: nat): Option<seq<byte>>
    requires quad < 4 && left < Held(quad)
    decreases |s|
  {
    if s == [] then
      if quad == 0 then Some([]) else None
    else if s[0] == '=' then
      var pads' := if quad >= 2 then pads + 1 else pads;
      if quad >= 2 && quad + pads' >= 4 then Some([])
      else DecodeFrom(s[1..], quad, left, pads')
    else if !InAlphabet(s[0]) then
      DecodeFrom(s[1..], quad, left, pads)
    else
      var v := ValueOf(s[0]);
      if quad == 0 then DecodeFrom(s[1..], 1, v, 0)
      else if quad == 1 then Cons(left * 4 + v / 16, DecodeFrom(s[1..], 2, v % 16, 0))
      else if quad == 2 then Cons(left * 16 + v / 4, DecodeFrom(s[1..], 3, v % 4, 0))
      else Cons(left * 64 + v, DecodeFrom(s[1..], 0, 0, 0))
  }

  /** `codecs.decode(s, 'base64')`; None when the padding is wrong. */
  function Decode(s: string): Option<seq<byte>>
  {
    DecodeFrom(s, 0, 0, 0)
  }

  // ---------------------------------------------------------------------
  // Round trips

  function Prepend(b: seq<byte>, rest: Option<seq<byte>>): Option<seq<byte>>
  {
    match rest
    case None => None
    case Some(r) => Some(b + r)
  }

  lemma QuadArithmetic(b0: byte, b1: byte, b2: byte)
    ensures (b0 / 4) * 4 + (b0 % 4 * 16 + b1 / 16) / 16 == b0
    ensures ((b0 % 4 * 16 + b1 / 16) % 16) * 16 + (b1 % 16 * 4 + b2 / 64) / 4 == b1
    ensures ((b1 % 16 * 4 + b2 / 64) % 4) * 64 + b2 % 64 == b2
  {
    var q, r := b1 / 16, b2 / 64;
    assert 0 <= q < 16 && 0 <= r < 4;
    assert (b0 % 4 * 16 + q) / 16 == b0 % 4;
    assert (b0 % 4 * 16 + q) % 16 == q;
    assert (b1 % 16 * 4 + r) / 4 == b1 % 16;
    assert (b1 % 16 * 4 + r) % 4 == r;
  }

  /** One data character, from any state of the decoder. */
  lemma DataStep(s: string, quad: nat, left: nat, pads: nat)
    requires quad < 4 && left < Held(quad) && s != [] && InAlphabet(s[0])
    ensures var v := ValueOf(s[0]);
      DecodeFrom(s, quad, left, pads)
      == if quad == 0 then DecodeFrom(s[1..], 1, v, 0)
         else if quad == 1 then Cons(left * 4 + v / 16, DecodeFrom(s[1..], 2, v % 16, 0))
         else if quad == 2 then Cons(left * 16 + v / 4, DecodeFrom(s[1..], 3, v % 4, 0))
         else Cons(left * 64 + v, DecodeFrom(s[1..], 0, 0, 0))
  {
  }

  /** One '=' character, from any state of the decoder. */
  lemma PadStep(s: string, quad: nat, left: nat, pads: nat)
    requires quad < 4 && left < Held(quad) && s != [] && s[0] == '='
    ensures var pads' := if quad >= 2 then pads + 1 else pads;
      DecodeFrom(s, quad, left, pads)
      == if quad >= 2 && quad + pads' >= 4 then Some([]) else DecodeFrom(s[1..], quad, left, pads')
  {
  }

  /** Four data characters decode to three bytes and bring the decoder back to its start. */
  lemma {:induction false} DecodeGroup(s: string)
    requires |s| >= 4 && InAlphabet(s[0]) && InAlphabet(s[1]) && InAlphabet(s[2]) && InAlphabet(s[3])
    ensures var v0, v1, v2, v3 := ValueOf(s[0]), ValueOf(s[1]), ValueOf(s[2]), ValueOf(s[3]);
      DecodeFrom(s, 0, 0, 0)
      == Cons(v0 * 4 + v1 / 16, Cons(v1 % 16 * 16 + v2 / 4, Cons(v2 % 4 * 64 + v3, DecodeFrom(s[4..], 0, 0, 0))))
  {
    var v0, v1, v2 := ValueOf(s[0]), ValueOf(s[1]), ValueOf(s[2]);
    var t1 := s[1..];
    var t2 := t1[1..];
    var t3 := t2[1..];
    assert t1[0] == s[1] && t2[0] == s[2] && t3[0] == s[3] && t3[1..] == s[4..];
    DataStep(s, 0, 0, 0);
    DataStep(t1, 1, v0, 0);
    DataStep(t2, 2, v1 % 16, 0);
    DataStep(t3, 3, v2 % 4, 0);
  }

  /** A whole group decodes to its three bytes and leaves the decoder where it started. */
  lemma {:induction false} DecodeQuad(b0: byte, b1: byte, b2: byte, rest: string)
    ensures DecodeFrom(Quad(b0, b1, b2) + rest, 0, 0, 0) == Prepend([b0, b1, b2], DecodeFrom(rest, 0, 0, 0))
  {
    var v0, v1, v2, v3 := b0 / 4, b0 % 4 * 16 + b1 / 16, b1 % 16 * 4 + b2 / 64, b2 % 64;
    ValueOfCharOf(v0); ValueOfCharOf(v1); ValueOfCharOf(v2); ValueOfCharOf(v3);
    QuadArithmetic(b0, b1, b2);
    var s := Quad(b0, b1, b2) + rest;
    assert s[0] == CharOf(v0) && s[1] == CharOf(v1) && s[2] == CharOf(v2) && s[3] == CharOf(v3);
    assert s[4..] == rest;
    DecodeGroup(s);
    var tail := DecodeFrom(rest, 0, 0, 0);
    match tail
    case None =>
    case Some(r) => assert [b0] + ([b1] + ([b2] + r)) == [b0, b1, b2] + r;
  }

  /** The padded last group decodes to its one or two bytes, whatever follows it. */
  lemma DecodeLastGroup(b: seq<byte>, rest: string)
    requires 1 <= |b| <= 2
    ensures DecodeFrom(Encode(b) + rest, 0, 0, 0) == Some(b)
  {
    if |b| == 1 {
      DecodeLastOne(b[0], rest);
      assert b == [b[0]];
    } else {
      DecodeLastTwo(b[0], b[1], rest);
      assert b == [b[0], b[1]];
    }
  }

  /** A group padded with two '=' holds one byte. */
  lemma DecodeLastOne(b0: byte, rest: string)
    ensures DecodeFrom(Encode([b0]) + rest, 0, 0, 0) == Some([b0])
  {
    var s := Encode([b0]) + rest;
    var t1 := s[1..];
    var t2 := t1[1..];
    var t3 := t2[1..];
    var v0, v1 := b0 / 4, b0 % 4 * 16;
    ValueOfCharOf(v0); ValueOfCharOf(v1);
    QuadArithmetic(b0, 0, 0);
    assert s[0] == CharOf(v0) && t1[0] == CharOf(v1) && t2[0] == '=' && t3[0] == '=';
    DataStep(s, 0, 0, 0);
    DataStep(t1, 1, v0, 0);
    PadStep(t2, 2, v1 % 16, 0);
    PadStep(t3, 2, v1 % 16, 1);
    assert [b0] + [] == [b0];
  }

  /** A group padded with one '=' holds two bytes. */
  lemma DecodeLastTwo(b0: byte, b1: byte, rest: string)
    ensures DecodeFrom(Encode([b0, b1]) + rest, 0, 0, 0) == Some([b0, b1])
  {
    var s := Encode([b0, b1]) + rest;
    var t1 := s[1..];
    var t2 := t1[1..];
    var t3 := t2[1..];
    var v0, v1, v2 := b0 / 4, b0 % 4 * 16 + b1 / 16, b1 % 16 * 4;
    ValueOfCharOf(v0); ValueOfCharOf(v1); ValueOfCharOf(v2);
    QuadArithmetic(b0, b1, 0);
    assert s[0] == CharOf(v0) && t1[0] == CharOf(v1) && t2[0] == CharOf(v2) && t3[0] == '=';
    DataStep(s, 0, 0, 0);
    DataStep(t1, 1, v0, 0);
    DataStep(t2, 2, v1 % 16, 0);
    PadStep(t3, 3, v2 % 4, 0);
    assert [b0] + ([b1] + []) == [b0, b1];
  }

  /** Encoding is group by group, so it distributes over a whole number of groups. */
  lemma {:induction false} EncodeAppend(x: seq<byte>, y: seq<byte>)
    requires |x| % 3 == 0
    ensures Encode(x + y) == Encode(x) + Encode(y)
    decreases |x|
  {
    if x != [] {
      assert (x + y)[3..] == x[3..] + y;
      EncodeAppend(x[3..], y);
      assert (x + y)[..3] == x[..3];
    } else {
      assert x + y == y;
    }
  }

  /** Decoding an encoding followed by more text: whole groups pass their bytes on, padding ends the input. */
  lemma {:induction false} DecodeEncodeThen(b: seq<byte>, rest: string)
    ensures DecodeFrom(Encode(b) + rest, 0, 0, 0) == DecodedThen(b, rest)
    decreases |b|
  {
    if |b| == 0 {
      assert Encode(b) + rest == rest;
      match DecodeFrom(rest, 0, 0, 0)
      case None =>
      case Some(r) => assert b + r == r;
    } else if |b| <= 2 {
      DecodeLastGroup(b, rest);
    } else {
      DecodeEncodeThen(b[3..], rest);
      DecodeGroupThen(b, rest);
    }
  }

  /** What decoding `Encode(b) + rest` gives. */
  function DecodedThen(b: seq<byte>, rest: string): Option<seq<byte>>
  {
    if |b| % 3 == 0 then Prepend(b, DecodeFrom(rest, 0, 0, 0)) else Some(b)
  }

  /** The inductive step of DecodeEncodeThen: one more group in front. */
  lemma DecodeGroupThen(b: seq<byte>, rest: string)
    requires |b| >= 3
    requires DecodeFrom(Encode(b[3..]) + rest, 0, 0, 0) == DecodedThen(b[3..], rest)
    ensures DecodeFrom(Encode(b) + rest, 0, 0, 0) == DecodedThen(b, rest)
  {
    DecodeFirstGroup(b, rest);
    DecodedThenCons(b, rest);
  }

  /** The first group of an encoding decodes to the first three bytes. */
  lemma DecodeFirstGroup(b: seq<byte>, rest: string)
    requires |b| >= 3
    ensures DecodeFrom(Encode(b) + rest, 0, 0, 0) == Prepend(b[..3], DecodeFrom(Encode(b[3..]) + rest, 0, 0, 0))
  {
    var e := Encode(b[3..]);
    assert Encode(b) == Quad(b[0], b[1], b[2]) + e;
    assert Encode(b) + rest == Quad(b[0], b[1], b[2]) + (e + rest);
    DecodeQuad(b[0], b[1], b[2], e + rest);
    assert b[..3] == [b[0], b[1], b[2]];
  }

  lemma DecodedThenCons(b: seq<byte>, rest: string)
    requires |b| >= 3
    ensures Prepend(b[..3], DecodedThen(b[3..], rest)) == DecodedThen(b, rest)
  {
    assert b[..3] + b[3..] == b;
    PrependTwice(b[..3], b[3..], DecodeFrom(rest, 0, 0, 0));
  }

  lemma PrependTwice(head: seq<byte>, tail: seq<byte>, rest: Option<seq<byte>>)
    ensures Prepend(head, Prepend(tail, rest)) == Prepend(head + tail, rest)
    ensures Prepend(head, Some(tail)) == Some(head + tail)
  {
    match rest
    case None =>
    case Some(r) => assert head + (tail + r) == head + tail + r;
  }

  /** Decoding inverts encoding (RFC 4648 section 4). */
  lemma RoundTrip(b: seq<byte>)
    ensures Decode(Encode(b)) == Some(b)
  {
    var n := |b| - |b| % 3;
    var x, y := b[..n], b[n..];
    assert x + y == b;
    EncodeAppend(x, y);
    DecodeEncodeThen(x, Encode(y));
    DecodeEncodeThen(y, []);
    assert Encode(y) + [] == Encode(y);
    if y == [] {
      assert x + [] == b;
    } else {
      assert x + y == b;
    }
  }

  /** A newline between groups is skipped. */
  lemma SkipNewline(rest: string)
    ensures DecodeFrom("\n" + rest, 0, 0, 0) == DecodeFrom(rest, 0, 0, 0)
  {
    assert ("\n" + rest)[1..] == rest;
  }

  /** Decoding inverts the line-wrapped encoding of `codecs.encode(b, 'base64')`. */
  lemma {:induction false} RoundTripLines(b: seq<byte>)
    ensures Decode(EncodeLines(b)) == Some(b)
    decreases |b|
  {
    if b == [] {
    } else if |b| <= LineBytes {
      RoundTripLastLine(b);
    } else {
      RoundTripLines(b[LineBytes..]);
      RoundTripLine(b);
    }
  }

  /** The last line: one encoding followed by a newline. */
  lemma RoundTripLastLine(b: seq<byte>)
    requires 1 <= |b| <= LineBytes
    ensures Decode(EncodeLines(b)) == Some(b)
  {
    assert EncodeLines(b) == Encode(b) + "\n";
    DecodeEncodeThen(b, "\n");
    SkipNewline([]);
    assert "\n" + [] == "\n";
    assert b + [] == b;
  }

  /** A full line in front of lines that decode correctly. */
  lemma RoundTripLine(b: seq<byte>)
    requires |b| > LineBytes && Decode(EncodeLines(b[LineBytes..])) == Some(b[LineBytes..])
    ensures Decode(EncodeLines(b)) == Some(b)
  {
    var x, y := b[..LineBytes], b[LineBytes..];
    var rest := "\n" + EncodeLines(y);
    assert EncodeLines(b) == Encode(x) + rest;
    assert DecodeFrom(Encode(x) + rest, 0, 0, 0) == Prepend(x, DecodeFrom(rest, 0, 0, 0)) by {
      DecodeEncodeThen(x, rest);
      DecodedThenWhole(x, rest);
    }
    assert DecodeFrom(rest, 0, 0, 0) == Some(y) by {
      SkipNewline(EncodeLines(y));
    }
    assert x + y == b;
  }

  /** A full line holds whole groups, so decoding carries on after it. */
  lemma DecodedThenWhole(x: seq<byte>, rest: string)
    requires |x| == LineBytes
    ensures DecodedThen(x, rest) == Prepend(x, DecodeFrom(rest, 0, 0, 0))
  {
    assert LineBytes == 3 * 19;
  }

  lemma NoNewline(b: seq<byte>)
    ensures '\n' !in Encode(b)
  {
    var e := Encode(b);
    forall i | 0 <= i < |e| ensures e[i] != '\n' {
    }
  }

  /** Removing the newlines from the wrapped encoding gives the unwrapped one. */
  lemma {:induction false} StsAssertionUnwrapped(b: seq<byte>)
    ensures StsAssertion(b) == Encode(b)
    decreases |b|
  {
    if b == [] {
    } else if |b| <= LineBytes {
      Text.RemoveCharAppend(Encode(b), "\n", '\n');
      NoNewline(b);
      Text.RemoveCharAbsent(Encode(b), '\n');
      assert Text.RemoveChar("\n", '\n') == [];
      assert Encode(b) + [] == Encode(b);
    } else {
      var x, y := b[..LineBytes], b[LineBytes..];
      Text.RemoveCharAppend(Encode(x) + "\n", EncodeLines(y), '\n');
      Text.RemoveCharAppend(Encode(x), "\n", '\n');
      NoNewline(x);
      Text.RemoveCharAbsent(Encode(x), '\n');
      assert Text.RemoveChar("\n", '\n') == [];
      StsAssertionUnwrapped(y);
      EncodeAppend(x, y);
      assert x + y == b;
      assert Encode(x) + [] == Encode(x);
    }
  }

  /** The plain encoding decodes back too, so `assume_role` sends the same assertion. */
  lemma StsAssertionRoundTrip(b: seq<byte>)
    ensures Decode(StsAssertion(b)) == Some(b)
  {
    StsAssertionUnwrapped(b);
    RoundTrip(b);
  }

  // ---------------------------------------------------------------------
  // The lenient decoder

  /** The characters the decoder acts on: those of the alphabet and '='. */
  function Significant(s: string): (r: string)
    ensures forall i :: 0 <= i < |r| ==> InAlphabet(r[i]) || r[i] == '='
    ensures |r| <= |s|
  {
    if s == [] then []
    else if InAlphabet(s[0]) || s[0] == '=' then [s[0]] + Significant(s[1..])
    else Significant(s[1..])
  }

  /** Every other character, the newline included, is skipped wherever it stands. */
  lemma {:induction false} DecodeIgnoresOthers(s: string, quad: nat, left: nat, pads: nat)
    requires quad < 4 && left < Held(quad)
    ensures DecodeFrom(Significant(s), quad, left, pads) == DecodeFrom(s, quad, left, pads)
    decreases |s|
  {
    if s != [] && !InAlphabet(s[0]) && s[0] != '=' {
      DecodeIgnoresOthers(s[1..], quad, left, pads);
    } else if s != [] {
      var u := [s[0]] + Significant(s[1..]);
      assert Significant(s) == u && u[0] == s[0] && u[1..] == Significant(s[1..]);
      if s[0] == '=' {
        PadStep(s, quad, left, pads);
        PadStep(u, quad, left, pads);
        DecodeIgnoresOthers(s[1..], quad, left, if quad >= 2 then pads + 1 else pads);
      } else {
        var v := ValueOf(s[0]);
        DataStep(s, quad, left, pads);
        DataStep(u, quad, left, pads);
        if quad == 0 {
          DecodeIgnoresOthers(s[1..], 1, v, 0);
        } else if quad == 1 {
          DecodeIgnoresOthers(s[1..], 2, v % 16, 0);
        } else if quad == 2 {
          DecodeIgnoresOthers(s[1..], 3, v % 4, 0);
        } else {
          DecodeIgnoresOthers(s[1..], 0, 0, 0);
        }
      }
    }
  }

  /** The number of data characters, those of the alphabet. */
  function DataCount(s: string): (n: nat)
    ensures n <= |s|
  {
    if s == [] then 0 else (if InAlphabet(s[0]) then 1 else 0) + DataCount(s[1..])
  }

  /**
   * Without any '=', decoding fails ("Incorrect padding") exactly when the
   * data characters leave the last group unfinished.
   */
  lemma {:induction false} UnpaddedDecode(s: string, quad: nat, left: nat, pads: nat)
    requires quad < 4 && left < Held(quad) && '=' !in s
    ensures DecodeFrom(s, quad, left, pads).None? <==> (quad + DataCount(s)) % 4 != 0
    decreases |s|
  {
    if s != [] {
      assert s == [s[0]] + s[1..];
      assert '=' !in s[1..];
      if !InAlphabet(s[0]) {
        UnpaddedDecode(s[1..], quad, left, pads);
      } else {
        var v := ValueOf(s[0]);
        DataStep(s, quad, left, pads);
        if quad == 0 {
          UnpaddedDecode(s[1..], 1, v, 0);
        } else if quad == 1 {
          UnpaddedDecode(s[1..], 2, v % 16, 0);
        } else if quad == 2 {
          UnpaddedDecode(s[1..], 3, v % 4, 0);
        } else {
          UnpaddedDecode(s[1..], 0, 0, 0);
        }
      }
    }
  }

  /** The '=' that closes a padded group ends the input: whatever follows is not read. */
  lemma PaddingEndsInput(b: seq<byte>, rest: string)
    requires |b| % 3 != 0
    ensures Decode(Encode(b) + rest) == Some(b)
  {
    DecodeEncodeThen(b, rest);
  }

  /** A lone data character, and a group with one of its two '=' missing, fail; the full padding decodes. */
  lemma DecodeExamples()
    ensures Decode("e") == None
    ensures Decode("eA=") == None
    ensures Decode("eA==") == Some([120])
  {
    UnpaddedDecode("e", 0, 0, 0);
    var x: seq<byte> := [120];
    assert CharOf(30) == 'e' && CharOf(0) == 'A';
    assert Encode(x) == "eA==";
    assert "eA==" == Encode(x) + [];
    PaddingEndsInput(x, []);
  }

  /** The example of the `get_saml_response` docstring: 'eG1s' is the encoding of "xml". */
  lemma DecodeXml()
    ensures Decode("eG1s") == Some([120, 109, 108])
  {
    var xml: seq<byte> := [120, 109, 108];
    assert CharOf(30) == 'e' && CharOf(6) == 'G' && CharOf(53) == '1' && CharOf(44) == 's';
    assert Quad(120, 109, 108) == "eG1s";
    assert xml[3..] == [];
    assert Encode(xml[3..]) == [];
    assert Encode(xml) == Quad(xml[0], xml[1], xml[2]) + Encode(xml[3..]);
    assert Encode(xml) == "eG1s";
    RoundTrip(xml);
  }
}
