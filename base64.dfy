/**
 * The base64 encoding of section 4 of RFC 4648, and a decoder that accepts
 * exactly the canonical encodings.  Encoding and decoding are proved to be
 * inverse to each other in both directions.
 *
 * The proofs are layered: Split and Join move between three octets and four
 * 6-bit values (arithmetic only), Chars and Values between 6-bit values and
 * alphabet characters (Table 1 only).
 */
module Base64 {

  type byte = x: int | 0 <= x < 256

  /** A 6-bit value: what one character of the encoding stands for. */
  type sextet = x: int | 0 <= x < 64

  datatype Option<+T> = None | Some(value: T)

  /** The padding character of RFC 4648, section 4. */
  const PAD: char := '='

  predicate IsAlphabet(c: char) {
    ('A' <= c <= 'Z') || ('a' <= c <= 'z') || ('0' <= c <= '9') || c == '+' || c == '/'
  }

  /** Table 1 of RFC 4648: the character that stands for the value v. */
  function Sextet(v: sextet): (c: char)
    ensures IsAlphabet(c)
  {
    if v < 26 then ('A' as int + v) as char
    else if v < 52 then ('a' as int + (v - 26)) as char
    else if v < 62 then ('0' as int + (v - 52)) as char
    else if v == 62 then '+'
    else '/'
  }

  /** Table 1 read backwards: the value an alphabet character stands for. */
  function Value(c: char): (v: sextet)
    requires IsAlphabet(c)
    ensures Sextet(v) == c
  {
    if 'A' <= c <= 'Z' then c as int - 'A' as int
    else if 'a' <= c <= 'z' then c as int - 'a' as int + 26
    else if '0' <= c <= '9' then c as int - '0' as int + 52
    else if c == '+' then 62
    else 63
  }

  lemma ValueOfSextet(v: sextet)
    ensures Value(Sextet(v)) == v
  {
  }

  // ---- Octets and 6-bit values: the arithmetic of a 24-bit group ----

  /** The four 6-bit values of a 24-bit group, most significant first. */
  function Split(b0: byte, b1: byte, b2: byte): (v: seq<sextet>)
    ensures |v| == 4
  {
    [b0 / 4, b0 % 4 * 16 + b1 / 16, b1 % 16 * 4 + b2 / 64, b2 % 64]
  }

  /** The three octets of a 24-bit group given as four 6-bit values. */
  function Join(v: seq<sextet>): (b: seq<byte>)
    requires |v| == 4
    ensures |b| == 3
  {
    var v0, v1, v2, v3 := v[0] as int, v[1] as int, v[2] as int, v[3] as int;
    [v0 * 4 + v1 / 16, v1 % 16 * 16 + v2 / 4, v2 % 4 * 64 + v3]
  }

  lemma Split4(q: int, r: int)
    requires 0 <= r < 4
    ensures (q * 4 + r) / 4 == q && (q * 4 + r) % 4 == r
  {
  }

  lemma Split16(q: int, r: int)
    requires 0 <= r < 16
    ensures (q * 16 + r) / 16 == q && (q * 16 + r) % 16 == r
  {
  }

  lemma Split64(q: int, r: int)
    requires 0 <= r < 64
    ensures (q * 64 + r) / 64 == q && (q * 64 + r) % 64 == r
  {
  }

  lemma JoinSplit(b0: byte, b1: byte, b2: byte)
    ensures Join(Split(b0, b1, b2)) == [b0, b1, b2]
  {
    Split16(b0 % 4, b1 / 16);
    Split4(b1 % 16, b2 / 64);
  }

  lemma SplitJoin(v: seq<sextet>)
    requires |v| == 4
    ensures var b := Join(v); Split(b[0], b[1], b[2]) == v
  {
    Split4(v[0], v[1] / 16);
    Split16(v[1] % 16, v[2] / 4);
    Split64(v[2] % 4, v[3]);
  }

  /** One final octet fills two characters; the bits left over are zero. */
  lemma SplitOne(b0: byte)
    ensures Split(b0, 0, 0)[1] % 16 == 0 && Split(b0, 0, 0)[2..] == [0, 0]
  {
    Split16(b0 % 4, 0);
  }

  /** Two final octets fill three characters; the bits left over are zero. */
  lemma SplitTwo(b0: byte, b1: byte)
    ensures Split(b0, b1, 0)[2] % 4 == 0 && Split(b0, b1, 0)[3..] == [0]
  {
    Split4(b1 % 16, 0);
  }

  lemma JoinOne(v: seq<sextet>)
    requires |v| == 4 && v[1] % 16 == 0 && v[2] == 0 && v[3] == 0
    ensures Join(v)[1] == 0 && Join(v)[2] == 0
  {
  }

  lemma JoinTwo(v: seq<sextet>)
    requires |v| == 4 && v[2] % 4 == 0 && v[3] == 0
    ensures Join(v)[2] == 0
  {
  }

  // ---- 6-bit values and characters: Table 1 ----

  function Chars(v: seq<sextet>): (s: string)
    ensures |s| == |v| && forall i :: 0 <= i < |v| ==> IsAlphabet(s[i])
  {
    seq(|v|, i requires 0 <= i < |v| => Sextet(v[i]))
  }

  predicate AllAlphabet(s: string) {
    forall i :: 0 <= i < |s| ==> IsAlphabet(s[i])
  }

  function Values(s: string): (v: seq<sextet>)
    requires AllAlphabet(s)
    ensures |v| == |s|
  {
    seq(|s|, i requires 0 <= i < |s| => Value(s[i]))
  }

  lemma ValuesOfChars(v: seq<sextet>)
    ensures AllAlphabet(Chars(v)) && Values(Chars(v)) == v
  {
    forall i | 0 <= i < |v| ensures Values(Chars(v))[i] == v[i] {
      ValueOfSextet(v[i]);
    }
  }

  lemma CharsOfValues(s: string)
    requires AllAlphabet(s)
    ensures Chars(Values(s)) == s
  {
  }

  // ---- Encoding ----

  /** A full 24-bit input group becomes four characters. */
  function EncodeGroup(b0: byte, b1: byte, b2: byte): string {
    Chars(Split(b0, b1, b2))
  }

  /** Number of '=' characters that end the encoding of n octets. */
  function PadCount(n: nat): nat {
    if n % 3 == 0 then 0 else 3 - n % 3
  }

  /**
   * Section 4 of RFC 4648: groups of three octets become four characters; a
   * final group of one or two octets is zero-filled and padded with "==" or "=".
   */
  function Encode(b: seq<byte>): (s: string)
    ensures |s| == 4 * ((|b| + 2) / 3)
    decreases |b|
  {
    if |b| == 0 then ""
    else if |b| == 1 then Chars(Split(b[0], 0, 0)[..2]) + [PAD, PAD]
    else if |b| == 2 then Chars(Split(b[0], b[1], 0)[..3]) + [PAD]
    else EncodeGroup(b[0], b[1], b[2]) + Encode(b[3..])
  }

  // ---- Decoding ----

  /** Four alphabet characters become three octets; padding is not allowed here. */
  function DecodeGroup(c: string): (r: Option<seq<byte>>)
    requires |c| == 4
  {
    if AllAlphabet(c) then Some(Join(Values(c))) else None
  }

  /**
   * The last four characters, which may end in "==" or "=".  The bits that
   * padding leaves unused must be zero (section 3.5 of RFC 4648), so only
   * canonical encodings are accepted.
   */
  function DecodeFinal(c: string): (r: Option<seq<byte>>)
    requires |c| == 4
  {
    if c[2] == PAD && c[3] == PAD then
      if AllAlphabet(c[..2]) && Values(c[..2])[1] % 16 == 0
      then Some(Join(Values(c[..2]) + [0, 0])[..1])
      else None
    else if c[3] == PAD then
      if AllAlphabet(c[..3]) && Values(c[..3])[2] % 4 == 0
      then Some(Join(Values(c[..3]) + [0])[..2])
      else None
    else DecodeGroup(c)
  }

  /** The decoder: None for any string that is not the encoding of some octets. */
  function Decode(s: string): (r: Option<seq<byte>>)
    decreases |s|
  {
    if |s| == 0 then Some([])
    else if |s| < 4 then None
    else if |s| == 4 then DecodeFinal(s)
    else
      match DecodeGroup(s[..4])
      case None => None
      case Some(q) =>
        match Decode(s[4..])
        case None => None
        case Some(rest) => Some(q + rest)
  }

  // ---- Decode after Encode ----

  lemma GroupRoundTrip(b0: byte, b1: byte, b2: byte)
    ensures DecodeGroup(EncodeGroup(b0, b1, b2)) == Some([b0, b1, b2])
  {
    ValuesOfChars(Split(b0, b1, b2));
    JoinSplit(b0, b1, b2);
  }

  lemma FinalOneRoundTrip(b0: byte)
    ensures DecodeFinal(Encode([b0])) == Some([b0])
  {
    var v := Split(b0, 0, 0);
    var c := Encode([b0]);
    assert c[..2] == Chars(v[..2]);
    ValuesOfChars(v[..2]);
    SplitOne(b0);
    assert v[..2] + [0, 0] == v;
    JoinSplit(b0, 0, 0);
    assert c[2] == PAD && c[3] == PAD;
    assert Values(c[..2]) == v[..2];
    assert DecodeFinal(c) == Some(Join(v)[..1]);
    assert Join(v)[..1] == [b0];
  }

  lemma FinalTwoRoundTrip(b0: byte, b1: byte)
    ensures DecodeFinal(Encode([b0, b1])) == Some([b0, b1])
  {
    var v := Split(b0, b1, 0);
    var c := Encode([b0, b1]);
    assert c[..3] == Chars(v[..3]);
    ValuesOfChars(v[..3]);
    SplitTwo(b0, b1);
    assert v[..3] + [0] == v;
    JoinSplit(b0, b1, 0);
    assert c[2] != PAD && c[3] == PAD;
    assert Values(c[..3]) == v[..3];
    assert DecodeFinal(c) == Some(Join(v)[..2]);
    assert Join(v)[..2] == [b0, b1];
  }

  /** The first group of an encoding, and what follows it. */
  lemma EncodeCons(b: seq<byte>, s: string)
    requires |b| >= 3 && s == Encode(b)
    ensures |s| >= 4 && s[4..] == Encode(b[3..])
    ensures DecodeGroup(s[..4]) == Some([b[0], b[1], b[2]])
  {
    assert s == EncodeGroup(b[0], b[1], b[2]) + Encode(b[3..]);
    assert s[..4] == EncodeGroup(b[0], b[1], b[2]);
    GroupRoundTrip(b[0], b[1], b[2]);
  }

  /** Decode takes a string of more than four characters one group at a time. */
  lemma DecodeCons(s: string, b: seq<byte>)
    requires |b| >= 3 && |s| > 4
    requires DecodeGroup(s[..4]) == Some([b[0], b[1], b[2]]) && Decode(s[4..]) == Some(b[3..])
    ensures Decode(s) == Some(b)
  {
    assert b == [b[0], b[1], b[2]] + b[3..];
  }

  lemma FinalGroupRoundTrip(b0: byte, b1: byte, b2: byte)
    ensures DecodeFinal(EncodeGroup(b0, b1, b2)) == Some([b0, b1, b2])
  {
    var c := EncodeGroup(b0, b1, b2);
    assert IsAlphabet(c[3]);
    GroupRoundTrip(b0, b1, b2);
  }

  lemma DecodeEncodeOne(b: seq<byte>)
    requires |b| == 1
    ensures Decode(Encode(b)) == Some(b)
  {
    assert b == [b[0]];
    FinalOneRoundTrip(b[0]);
  }

  lemma DecodeEncodeTwo(b: seq<byte>)
    requires |b| == 2
    ensures Decode(Encode(b)) == Some(b)
  {
    assert b == [b[0], b[1]];
    FinalTwoRoundTrip(b[0], b[1]);
  }

  lemma DecodeEncodeThree(b0: byte, b1: byte, b2: byte)
    ensures Decode(Encode([b0, b1, b2])) == Some([b0, b1, b2])
  {
    var b := [b0, b1, b2];
    var c := EncodeGroup(b0, b1, b2);
    assert Encode(b) == c by {
      assert b[3..] == [];
      assert c + Encode(b[3..]) == c;
    }
    FinalGroupRoundTrip(b0, b1, b2);
  }

  /** Every octet string is recovered from its encoding. */
  lemma {:induction false} DecodeEncode(b: seq<byte>)
    ensures Decode(Encode(b)) == Some(b)
    decreases |b|
  {
    if |b| == 1 {
      DecodeEncodeOne(b);
    } else if |b| == 2 {
      DecodeEncodeTwo(b);
    } else if |b| == 3 {
      DecodeEncodeThree(b[0], b[1], b[2]);
      assert b == [b[0], b[1], b[2]];
    } else if |b| > 3 {
      var s := Encode(b);
      EncodeCons(b, s);
      DecodeEncode(b[3..]);
      DecodeCons(s, b);
    }
  }

  // ---- Encode after Decode ----

  lemma GroupCanonical(c: string, q: seq<byte>)
    requires |c| == 4 && DecodeGroup(c) == Some(q)
    ensures |q| == 3 && EncodeGroup(q[0], q[1], q[2]) == c
  {
    SplitJoin(Values(c));
    CharsOfValues(c);
  }

  lemma FinalOneCanonical(c: string, q: seq<byte>)
    requires |c| == 4 && c[2] == PAD && c[3] == PAD && DecodeFinal(c) == Some(q)
    ensures Encode(q) == c
  {
    var v := Values(c[..2]) + [0, 0];
    var j := Join(v);
    assert q == [j[0]];
    JoinOne(v);
    assert j == [q[0], 0, 0];
    SplitJoin(v);
    assert Split(q[0], 0, 0)[..2] == Values(c[..2]);
    CharsOfValues(c[..2]);
    assert c == c[..2] + [PAD, PAD];
  }

  lemma FinalTwoCanonical(c: string, q: seq<byte>)
    requires |c| == 4 && c[2] != PAD && c[3] == PAD && DecodeFinal(c) == Some(q)
    ensures Encode(q) == c
  {
    var v := Values(c[..3]) + [0];
    var j := Join(v);
    assert q == [j[0], j[1]];
    JoinTwo(v);
    assert j == [q[0], q[1], 0];
    SplitJoin(v);
    assert Split(q[0], q[1], 0)[..3] == Values(c[..3]);
    CharsOfValues(c[..3]);
    assert c == c[..3] + [PAD];
  }

  lemma FinalGroupCanonical(c: string, q: seq<byte>)
    requires |c| == 4 && c[3] != PAD && DecodeFinal(c) == Some(q)
    ensures Encode(q) == c
  {
    GroupCanonical(c, q);
    assert Encode(q) == EncodeGroup(q[0], q[1], q[2]) + Encode(q[3..]);
    assert q[3..] == [];
  }

  /** The encoding of a full group followed by more octets. */
  lemma EncodeAppend(q: seq<byte>, rest: seq<byte>)
    requires |q| == 3
    ensures Encode(q + rest) == EncodeGroup(q[0], q[1], q[2]) + Encode(rest)
  {
    var b := q + rest;
    assert b[0] == q[0] && b[1] == q[1] && b[2] == q[2] && b[3..] == rest;
  }

  /** Only canonical encodings decode: whatever Decode accepts is Encode's output. */
  lemma {:induction false} EncodeDecode(s: string, b: seq<byte>)
    requires Decode(s) == Some(b)
    ensures Encode(b) == s
    decreases |s|
  {
    if |s| == 0 {
    } else if |s| == 4 {
      if s[2] == PAD && s[3] == PAD {
        FinalOneCanonical(s, b);
      } else if s[3] == PAD {
        FinalTwoCanonical(s, b);
      } else {
        FinalGroupCanonical(s, b);
      }
    } else if |s| > 4 {
      var q := DecodeGroup(s[..4]).value;
      var rest := Decode(s[4..]).value;
      assert b == q + rest;
      GroupCanonical(s[..4], q);
      EncodeDecode(s[4..], rest);
      EncodeAppend(q, rest);
      assert s == s[..4] + s[4..];
    }
  }

  /** The two lemmas above, together: Decode is exactly the inverse of Encode. */
  lemma DecodeIffEncode(s: string, b: seq<byte>)
    ensures Decode(s) == Some(b) <==> Encode(b) == s
  {
    if Decode(s) == Some(b) {
      EncodeDecode(s, b);
    }
    if Encode(b) == s {
      DecodeEncode(b);
    }
  }

  // ---- The shape of an encoding ----

  /** Alphabet characters, then exactly pad '=' characters. */
  predicate WellPadded(s: string, pad: nat) {
    pad <= |s| &&
    (forall i :: 0 <= i < |s| - pad ==> IsAlphabet(s[i])) &&
    (forall i :: |s| - pad <= i < |s| ==> s[i] == PAD)
  }

  lemma WellPaddedAppend(g: string, t: string, pad: nat)
    requires AllAlphabet(g) && WellPadded(t, pad)
    ensures WellPadded(g + t, pad)
  {
    var s := g + t;
    forall i | 0 <= i < |s|
      ensures i < |g| ==> s[i] == g[i]
      ensures |g| <= i ==> s[i] == t[i - |g|]
    {
    }
  }

  /** The encoding of n octets ends in PadCount(n) '=' and has only alphabet characters before. */
  lemma {:induction false} EncodeShape(b: seq<byte>)
    ensures WellPadded(Encode(b), PadCount(|b|))
    decreases |b|
  {
    if |b| == 1 {
      WellPaddedAppend(Chars(Split(b[0], 0, 0)[..2]), [PAD, PAD], 2);
    } else if |b| == 2 {
      WellPaddedAppend(Chars(Split(b[0], b[1], 0)[..3]), [PAD], 1);
    } else if |b| > 2 {
      EncodeShape(b[3..]);
      assert PadCount(|b|) == PadCount(|b[3..]|);
      WellPaddedAppend(EncodeGroup(b[0], b[1], b[2]), Encode(b[3..]), PadCount(|b|));
    }
  }
}
