/**
 * Base64 as defined in section 4 of RFC 4648: the browser's `btoa` on a
 * string of characters below 256, and a strict `atob` that accepts exactly
 * the padded encodings (length a multiple of four, `=` only at the end).
 * Like `atob`, decoding does not insist that the unused low bits of a
 * padded final group are zero.
 */
module Base64 {
  import opened FileTypes

  /** A character code below 256: one element of a "binary string". */
  type byte = x: int | 0 <= x < 256

  /** The character for a six-bit value (Table 1 of RFC 4648). */
  function EncodeValue(v: int): (c: char)
    requires 0 <= v < 64
  {
    if v < 26 then ('A' as int + v) as char
    else if v < 52 then ('a' as int + v - 26) as char
    else if v < 62 then ('0' as int + v - 52) as char
    else if v == 62 then '+'
    else '/'
  }

  /** The six-bit value of an alphabet character, `None` for anything else (the pad included). */
  function DecodeValue(c: char): (r: Option<int>)
    ensures r.Some? ==> 0 <= r.value < 64 && EncodeValue(r.value) == c
  {
    if 'A' <= c <= 'Z' then Some(c as int - 'A' as int)
    else if 'a' <= c <= 'z' then Some(c as int - 'a' as int + 26)
    else if '0' <= c <= '9' then Some(c as int - '0' as int + 52)
    else if c == '+' then Some(62)
    else if c == '/' then Some(63)
    else None
  }

  lemma DecodeEncodeValue(v: int)
    requires 0 <= v < 64
    ensures DecodeValue(EncodeValue(v)) == Some(v)
  {
  }

  predicate InAlphabet(c: char)
  {
    DecodeValue(c).Some?
  }

  /** One group of four characters for one, two or three bytes, padded with `=`. */
  function EncodeGroup(b: seq<byte>): (r: string)
    requires 1 <= |b| <= 3
    ensures |r| == 4
  {
    var x := b[0];
    if |b| == 1 then
      [EncodeValue(x / 4), EncodeValue((x % 4) * 16), '=', '=']
    else if |b| == 2 then
      var y := b[1];
      [EncodeValue(x / 4), EncodeValue((x % 4) * 16 + y / 16), EncodeValue((y % 16) * 4), '=']
    else
      var y, z := b[1], b[2];
      [EncodeValue(x / 4), EncodeValue((x % 4) * 16 + y / 16), EncodeValue((y % 16) * 4 + z / 64), EncodeValue(z % 64)]
  }

  /** `btoa`: the Base64 encoding of a binary string. */
  function Encode(b: seq<byte>): (r: string)
    ensures |r| == 4 * ((|b| + 2) / 3)
    ensures forall k :: 0 <= k < |r| ==> InAlphabet(r[k]) || (r[k] == '=' && k >= |r| - 2)
    decreases |b|
  {
    if |b| == 0 then ""
    else if |b| <= 3 then
      GroupAlphabet(b);
      EncodeGroup(b)
    else
      GroupAlphabet(b[..3]);
      assert (|b| + 2) / 3 == (|b[3..]| + 2) / 3 + 1;
      PaddedAfterFullGroup(EncodeGroup(b[..3]), Encode(b[3..]));
      EncodeGroup(b[..3]) + Encode(b[3..])
  }

  /** A group of four alphabet characters in front keeps the padding at the end. */
  lemma PaddedAfterFullGroup(g: string, rest: string)
    requires |g| == 4 && forall k :: 0 <= k < 4 ==> InAlphabet(g[k])
    requires forall k :: 0 <= k < |rest| ==> InAlphabet(rest[k]) || (rest[k] == '=' && k >= |rest| - 2)
    ensures forall k :: 0 <= k < |g + rest| ==>
      InAlphabet((g + rest)[k]) || ((g + rest)[k] == '=' && k >= |g + rest| - 2)
  {
    forall k | 0 <= k < |g + rest|
      ensures InAlphabet((g + rest)[k]) || ((g + rest)[k] == '=' && k >= |g + rest| - 2)
    {
      if k >= 4 {
        assert (g + rest)[k] == rest[k - 4];
      }
    }
  }

  /** A group is four alphabet characters, except for `=` padding in its last two places when it is short. */
  lemma GroupAlphabet(b: seq<byte>)
    requires 1 <= |b| <= 3
    ensures forall k :: 0 <= k < 4 ==> InAlphabet(EncodeGroup(b)[k]) || (EncodeGroup(b)[k] == '=' && k >= 2)
    ensures |b| == 3 ==> forall k :: 0 <= k < 4 ==> InAlphabet(EncodeGroup(b)[k])
  {
    var x := b[0];
    DecodeEncodeValue(x / 4);
    if |b| == 1 {
      DecodeEncodeValue((x % 4) * 16);
    } else if |b| == 2 {
      DecodeEncodeValue((x % 4) * 16 + b[1] / 16);
      DecodeEncodeValue((b[1] % 16) * 4);
    } else {
      DecodeEncodeValue((x % 4) * 16 + b[1] / 16);
      DecodeEncodeValue((b[1] % 16) * 4 + b[2] / 64);
      DecodeEncodeValue(b[2] % 64);
    }
  }

  /** Three bytes from four alphabet characters. */
  function DecodeFull(s: string): (r: Option<seq<byte>>)
    requires |s| == 4
    ensures r.Some? ==> |r.value| == 3
  {
    match (DecodeValue(s[0]), DecodeValue(s[1]), DecodeValue(s[2]), DecodeValue(s[3]))
    case (Some(a), Some(b), Some(c), Some(d)) =>
      Some([a * 4 + b / 16, (b % 16) * 16 + c / 4, (c % 4) * 64 + d])
    case _ => None
  }

  /** The last group: `xx==` gives one byte, `xxx=` two, `xxxx` three. */
  function DecodeLast(s: string): (r: Option<seq<byte>>)
    requires |s| == 4
    ensures r.Some? ==> 1 <= |r.value| <= 3
  {
    if s[2] == '=' && s[3] == '=' then
      match (DecodeValue(s[0]), DecodeValue(s[1]))
      case (Some(a), Some(b)) => Some([a * 4 + b / 16])
      case _ => None
    else if s[3] == '=' then
      match (DecodeValue(s[0]), DecodeValue(s[1]), DecodeValue(s[2]))
      case (Some(a), Some(b), Some(c)) => Some([a * 4 + b / 16, (b % 16) * 16 + c / 4])
      case _ => None
    else DecodeFull(s)
  }

  /** `atob`, strictly: `None` where the browser throws. */
  function Decode(s: string): (r: Option<seq<byte>>)
    ensures r.Some? ==> |s| % 4 == 0
    ensures r.Some? && s != [] ==> |r.value| > 0
    decreases |s|
  {
    if |s| == 0 then Some([])
    else if |s| < 4 then None
    else if |s| == 4 then DecodeLast(s)
    else
      match (DecodeFull(s[..4]), Decode(s[4..]))
      case (Some(head), Some(tail)) => Some(head + tail)
      case _ => None
  }

  /** Decoding a group reverses encoding it. */
  lemma DecodeGroup(b: seq<byte>)
    requires 1 <= |b| <= 3
    ensures DecodeLast(EncodeGroup(b)) == Some(b)
    ensures |b| == 3 ==> DecodeFull(EncodeGroup(b)) == Some(b)
  {
    if |b| == 1 {
      DecodeGroup1(b[0]);
      assert b == [b[0]];
    } else if |b| == 2 {
      DecodeGroup2(b[0], b[1]);
      assert b == [b[0], b[1]];
    } else {
      DecodeGroup3(b[0], b[1], b[2]);
      assert b == [b[0], b[1], b[2]];
    }
  }

  lemma DecodeGroup1(x: byte)
    ensures DecodeLast(EncodeGroup([x])) == Some([x])
  {
    DecodeEncodeValue(x / 4);
    DecodeEncodeValue((x % 4) * 16);
    var g := EncodeGroup([x]);
    assert g[2] == '=' && g[3] == '=';
    assert ((x % 4) * 16) / 16 == x % 4;
    assert (x / 4) * 4 + x % 4 == x;
  }

  lemma DecodeGroup2(x: byte, y: byte)
    ensures DecodeLast(EncodeGroup([x, y])) == Some([x, y])
  {
    var v1 := (x % 4) * 16 + y / 16;
    DecodeEncodeValue(x / 4);
    DecodeEncodeValue(v1);
    DecodeEncodeValue((y % 16) * 4);
    var g := EncodeGroup([x, y]);
    assert g[2] != '=' && g[3] == '=';
    assert v1 / 16 == x % 4 && v1 % 16 == y / 16;
    assert ((y % 16) * 4) / 4 == y % 16;
    assert (x / 4) * 4 + x % 4 == x && (y / 16) * 16 + y % 16 == y;
  }

  lemma DecodeGroup3(x: byte, y: byte, z: byte)
    ensures DecodeFull(EncodeGroup([x, y, z])) == Some([x, y, z])
    ensures DecodeLast(EncodeGroup([x, y, z])) == Some([x, y, z])
  {
    var v1 := (x % 4) * 16 + y / 16;
    var v2 := (y % 16) * 4 + z / 64;
    DecodeEncodeValue(x / 4);
    DecodeEncodeValue(v1);
    DecodeEncodeValue(v2);
    DecodeEncodeValue(z % 64);
    var g := EncodeGroup([x, y, z]);
    assert g[2] != '=' && g[3] != '=';
    assert v1 / 16 == x % 4 && v1 % 16 == y / 16;
    assert v2 / 4 == y % 16 && v2 % 4 == z / 64;
    assert (x / 4) * 4 + x % 4 == x && (y / 16) * 16 + y % 16 == y && (z / 64) * 64 + z % 64 == z;
  }

  /** Decoding an encoding gives the binary string back. */
  lemma {:induction false} DecodeEncode(b: seq<byte>)
    ensures Decode(Encode(b)) == Some(b)
    decreases |b|
  {
    if |b| == 0 {
    } else if |b| <= 3 {
      DecodeGroup(b);
    } else {
      var s := Encode(b);
      DecodeGroup(b[..3]);
      DecodeEncode(b[3..]);
      assert s[..4] == EncodeGroup(b[..3]);
      assert s[4..] == Encode(b[3..]);
      assert b == b[..3] + b[3..];
    }
  }

  /** A character outside the alphabet and the pad makes decoding fail. */
  lemma {:induction false} DecodeRejectsForeign(s: string, k: int)
    requires 0 <= k < |s| && !InAlphabet(s[k]) && s[k] != '='
    ensures Decode(s) == None
    decreases |s|
  {
    if |s| > 4 && k >= 4 {
      DecodeRejectsForeign(s[4..], k - 4);
    }
  }
}
