/**
 * The base 64 encoding of section 4 of RFC 4648 with padding, as Go's
 * `base64.StdEncoding` writes and reads it: `EncodeToString` and
 * `DecodeString`. The decoder skips carriage returns and line feeds
 * anywhere in its input, demands complete four-character quanta, accepts
 * `=` padding only in the last quantum, and (being non-strict) ignores the
 * unused low bits of a padded quantum.
 */
module Base64 {
  import opened Wrappers

  type Byte = x: int | 0 <= x < 256

  /** A six-bit value: the index of a character of the alphabet. */
  type Sextet = x: int | 0 <= x < 64

  /** The alphabet character index, the inverse of the alphabet (Table 1 of RFC 4648). */
  function IndexOf(c: char): Option<Sextet>
  {
    if 'A' <= c <= 'Z' then Some(c as int - 'A' as int)
    else if 'a' <= c <= 'z' then Some(c as int - 'a' as int + 26)
    else if '0' <= c <= '9' then Some(c as int - '0' as int + 52)
    else if c == '+' then Some(62)
    else if c == '/' then Some(63)
    else None
  }

  /** The alphabet character for a six-bit value; its index is that value again. */
  function CharOf(v: Sextet): (c: char)
    ensures IndexOf(c) == Some(v)
  {
    if v < 26 then ('A' as int + v) as char
    else if v < 52 then ('a' as int + (v - 26)) as char
    else if v < 62 then ('0' as int + (v - 52)) as char
    else if v == 62 then '+'
    else '/'
  }

  /** The four characters for three bytes. */
  function EncodeGroup(b0: Byte, b1: Byte, b2: Byte): string
  {
    [CharOf(b0 / 4), CharOf((b0 % 4) * 16 + b1 / 16), CharOf((b1 % 16) * 4 + b2 / 64), CharOf(b2 % 64)]
  }

  /** EncodeToString: every three bytes become four characters, the last group padded with `=`. */
  function Encode(b: seq<Byte>): (s: string)
    ensures forall k :: 0 <= k < |s| ==> s[k] != '\n' && s[k] != '\r'
    decreases |b|
  {
    if |b| == 0 then ""
    else if |b| == 1 then [CharOf(b[0] / 4), CharOf((b[0] % 4) * 16), '=', '=']
    else if |b| == 2 then [CharOf(b[0] / 4), CharOf((b[0] % 4) * 16 + b[1] / 16), CharOf((b[1] % 16) * 4), '=']
    else EncodeGroup(b[0], b[1], b[2]) + Encode(b[3..])
  }

  /** Four characters for every started group of three bytes. */
  lemma {:induction false} EncodeLength(b: seq<Byte>)
    ensures |Encode(b)| == (|b| + 2) / 3 * 4
    decreases |b|
  {
    if |b| > 3 {
      EncodeLength(b[3..]);
      EncodeStep(b);
      assert (|b| + 2) / 3 == (|b| - 3 + 2) / 3 + 1;
    } else if |b| == 3 {
      assert Encode(b) == EncodeGroup(b[0], b[1], b[2]) + Encode(b[3..]);
    }
  }

  /** The input with every carriage return and line feed removed. */
  function StripNewlines(s: string): (r: string)
    ensures |r| <= |s|
  {
    if s == [] then ""
    else if s[0] == '\n' || s[0] == '\r' then StripNewlines(s[1..])
    else [s[0]] + StripNewlines(s[1..])
  }

  /**
   * One quantum of four characters. Padding is accepted only when the quantum
   * is the last one: `xy==` gives one byte, `xyz=` two.
   */
  function DecodeQuantum(q: string, last: bool): Option<seq<Byte>>
    requires |q| == 4
  {
    var a, b, c, d := IndexOf(q[0]), IndexOf(q[1]), IndexOf(q[2]), IndexOf(q[3]);
    if a.None? || b.None? then None
    else if c.Some? && d.Some? then
      Some([a.value * 4 + b.value / 16, (b.value % 16) * 16 + c.value / 4, (c.value % 4) * 64 + d.value])
    else if last && c.Some? && q[3] == '=' then
      Some([a.value * 4 + b.value / 16, (b.value % 16) * 16 + c.value / 4])
    else if last && q[2] == '=' && q[3] == '=' then
      Some([a.value * 4 + b.value / 16])
    else None
  }

  /** A newline-free input, quantum by quantum; a trailing incomplete quantum is corrupt input. */
  function DecodeQuanta(t: string): Option<seq<Byte>>
    decreases |t|
  {
    if |t| == 0 then Some([])
    else if |t| < 4 then None
    else
      match DecodeQuantum(t[..4], |t| == 4)
      case None => None
      case Some(bs) =>
        if |t| == 4 then Some(bs)
        else
          match DecodeQuanta(t[4..])
          case None => None
          case Some(rest) => Some(bs + rest)
  }

  /** DecodeString: `None` stands for Go's CorruptInputError. */
  function Decode(s: string): Option<seq<Byte>>
  {
    DecodeQuanta(StripNewlines(s))
  }

  lemma {:induction false} StripNewlinesIdentity(s: string)
    requires forall k :: 0 <= k < |s| ==> s[k] != '\n' && s[k] != '\r'
    ensures StripNewlines(s) == s
    decreases |s|
  {
    if s != [] {
      StripNewlinesIdentity(s[1..]);
      assert [s[0]] + s[1..] == s;
    }
  }

  lemma GroupRoundTrip(b0: Byte, b1: Byte, b2: Byte)
    ensures DecodeQuantum(EncodeGroup(b0, b1, b2), false) == Some([b0, b1, b2])
    ensures DecodeQuantum(EncodeGroup(b0, b1, b2), true) == Some([b0, b1, b2])
  {
    var c1 := (b0 % 4) * 16 + b1 / 16;
    var c2 := (b1 % 16) * 4 + b2 / 64;
    assert c1 / 16 == b0 % 4 && c1 % 16 == b1 / 16;
    assert c2 / 4 == b1 % 16 && c2 % 4 == b2 / 64;
  }

  lemma OneByteRoundTrip(b0: Byte)
    ensures DecodeQuanta(Encode([b0])) == Some([b0])
  {
    var t := Encode([b0]);
    var c1 := (b0 % 4) * 16;
    assert c1 / 16 == b0 % 4;
    assert t[..4] == t;
  }

  lemma TwoBytesRoundTrip(b0: Byte, b1: Byte)
    ensures DecodeQuanta(Encode([b0, b1])) == Some([b0, b1])
  {
    var t := Encode([b0, b1]);
    var c1 := (b0 % 4) * 16 + b1 / 16;
    var c2 := (b1 % 16) * 4;
    assert c1 / 16 == b0 % 4 && c1 % 16 == b1 / 16;
    assert c2 / 4 == b1 % 16;
    assert t[..4] == t;
    assert DecodeQuantum(t, true) == Some([b0, b1]);
  }

  /** A last quantum on its own decodes to what the quantum holds. */
  lemma DecodeQuantaSingle(g: string, bs: seq<Byte>)
    requires |g| == 4 && DecodeQuantum(g, true) == Some(bs)
    ensures DecodeQuanta(g) == Some(bs)
  {
    assert g[..4] == g;
  }

  lemma ThreeBytesRoundTrip(b: seq<Byte>)
    requires |b| == 3
    ensures DecodeQuanta(Encode(b)) == Some(b)
  {
    GroupRoundTrip(b[0], b[1], b[2]);
    assert Encode(b[3..]) == "";
    assert Encode(b) == EncodeGroup(b[0], b[1], b[2]);
    DecodeQuantaSingle(EncodeGroup(b[0], b[1], b[2]), [b[0], b[1], b[2]]);
    assert b == [b[0], b[1], b[2]];
  }


  /** Any non-empty input encodes to at least one quantum. */
  lemma EncodeNonEmpty(b: seq<Byte>)
    requires |b| > 0
    ensures |Encode(b)| >= 4
  {
    if |b| > 2 {
      assert Encode(b) == EncodeGroup(b[0], b[1], b[2]) + Encode(b[3..]);
    }
  }

  /** A complete non-final quantum followed by more input decodes quantum by quantum. */
  lemma DecodeQuantaCons(g: string, r: string, bs: seq<Byte>, rest: seq<Byte>)
    requires |g| == 4 && |r| > 0
    requires DecodeQuantum(g, false) == Some(bs) && DecodeQuanta(r) == Some(rest)
    ensures DecodeQuanta(g + r) == Some(bs + rest)
  {
    var t := g + r;
    assert t[..4] == g && t[4..] == r;
  }

  /** Encoding proceeds group by group. */
  lemma EncodeStep(b: seq<Byte>)
    requires |b| > 3
    ensures Encode(b) == EncodeGroup(b[0], b[1], b[2]) + Encode(b[3..])
  {
  }




  /** Decoding what the encoder wrote restores the bytes (newline-free form). */
  lemma {:induction false} DecodeQuantaEncode(b: seq<Byte>)
    ensures DecodeQuanta(Encode(b)) == Some(b)
    decreases |b|
  {
    if |b| == 1 {
      OneByteRoundTrip(b[0]);
      assert b == [b[0]];
    } else if |b| == 2 {
      TwoBytesRoundTrip(b[0], b[1]);
      assert b == [b[0], b[1]];
    } else if |b| == 3 {
      ThreeBytesRoundTrip(b);
    } else if |b| > 3 {
      DecodeQuantaEncode(b[3..]);
      GroupRoundTrip(b[0], b[1], b[2]);
      EncodeNonEmpty(b[3..]);
      EncodeStep(b);
      DecodeQuantaCons(EncodeGroup(b[0], b[1], b[2]), Encode(b[3..]), [b[0], b[1], b[2]], b[3..]);
      assert [b[0], b[1], b[2]] + b[3..] == b;
    }
  }

  /** RFC 4648 round trip: DecodeString(EncodeToString(b)) == b. */
  lemma RoundTrip(b: seq<Byte>)
    ensures Decode(Encode(b)) == Some(b)
  {
    StripNewlinesIdentity(Encode(b));
    DecodeQuantaEncode(b);
  }

  /** On newline-free input, a character outside the alphabet and not padding makes the whole input corrupt. */
  lemma {:induction false} ForeignCharacterRejected(t: string, k: nat)
    requires k < |t| && IndexOf(t[k]).None? && t[k] != '='
    ensures DecodeQuanta(t) == None
    decreases |t|
  {
    if |t| >= 4 {
      if k < 4 {
        assert t[..4][k] == t[k];
      } else {
        match DecodeQuantum(t[..4], |t| == 4)
        case None =>
        case Some(_) =>
          assert t[4..][k - 4] == t[k];
          ForeignCharacterRejected(t[4..], k - 4);
      }
    }
  }

  /** Removing line breaks keeps every other character, at some position of the result. */
  lemma {:induction false} StripNewlinesKeeps(s: string, k: nat) returns (j: nat)
    requires k < |s| && s[k] != '\n' && s[k] != '\r'
    ensures j < |StripNewlines(s)| && StripNewlines(s)[j] == s[k]
    decreases |s|
  {
    if k == 0 {
      j := 0;
    } else {
      var i := StripNewlinesKeeps(s[1..], k - 1);
      if s[0] == '\n' || s[0] == '\r' {
        j := i;
      } else {
        j := i + 1;
      }
    }
  }

  /**
   * DecodeString fails on any character that is not in the alphabet, not
   * padding and not a line break, wherever it stands.
   */
  lemma DecodeRejectsForeign(s: string, k: nat)
    requires k < |s| && IndexOf(s[k]).None? && s[k] != '=' && s[k] != '\n' && s[k] != '\r'
    ensures Decode(s) == None
  {
    var j := StripNewlinesKeeps(s, k);
    ForeignCharacterRejected(StripNewlines(s), j);
  }
}
