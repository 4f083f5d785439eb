/**
 * The content cipher of `src/lib/encryption.ts`: a repeating-key XOR over
 * character codes followed by Base64, its inverse, the key builder and the
 * 32-bit string hash. A `char` is a Unicode scalar value, which is one
 * UTF-16 code unit for characters up to U+FFFF (the range the cipher is
 * faithful on); the XOR step
 * yields a "binary string" of codes, which `btoa` accepts only when every
 * code is below 256.
 */
module Encryption {
  import opened FileTypes
  import Base64
  import Text
  import Arith

  // ---------------------------------------------------------------------
  // Bitwise exclusive or on character codes

  /** `a ^ b` on non-negative integers, one bit at a time from the bottom. */
  function Xor(a: nat, b: nat): nat
    decreases a + b
  {
    if a == 0 then b
    else if b == 0 then a
    else 2 * Xor(a / 2, b / 2) + (if a % 2 == b % 2 then 0 else 1)
  }

  lemma XorHalves(a: nat, b: nat)
    ensures Xor(a, b) / 2 == Xor(a / 2, b / 2)
    ensures Xor(a, b) % 2 == (if a % 2 == b % 2 then 0 else 1)
  {
  }

  lemma {:induction false} XorSelf(a: nat)
    ensures Xor(a, a) == 0
    decreases a
  {
    if a != 0 { XorSelf(a / 2); }
  }

  /** Applying the same key code twice gives the code back. */
  lemma {:induction false} XorTwice(a: nat, b: nat)
    ensures Xor(Xor(a, b), b) == a
    decreases a + b
  {
    XorHalves(a, b);
    if a == 0 || b == 0 {
      if a == 0 && b != 0 { XorSelf(b); }
    } else {
      XorTwice(a / 2, b / 2);
      XorHalves(Xor(a, b), b);
    }
  }

  /** `x` shifted right by `k` bits. */
  function Halve(x: nat, k: nat): nat
  {
    if k == 0 then x else Halve(x / 2, k - 1)
  }

  lemma {:induction false} HalveZero(k: nat)
    ensures Halve(0, k) == 0
  {
    if k > 0 { HalveZero(k - 1); }
  }

  /** Bits above the width of `a` come from `b` alone. */
  lemma {:induction false} XorHigh(a: nat, b: nat, k: nat)
    requires Halve(a, k) == 0
    ensures Halve(Xor(a, b), k) == Halve(b, k)
    decreases k
  {
    if k > 0 && b == 0 {
      HalveZero(k);
    } else if k > 0 && a != 0 {
      XorHigh(a / 2, b / 2, k - 1);
      XorHalves(a, b);
    }
  }

  lemma HalveByte(x: nat)
    ensures Halve(x, 8) == x / 256
  {
    var x1 := x / 2; var x2 := x1 / 2; var x3 := x2 / 2; var x4 := x3 / 2;
    var x5 := x4 / 2; var x6 := x5 / 2; var x7 := x6 / 2; var x8 := x7 / 2;
    assert Halve(x7, 1) == x8;
    assert Halve(x6, 2) == x8;
    assert Halve(x5, 3) == x8;
    assert Halve(x4, 4) == x8;
    assert Halve(x3, 5) == x8;
    assert Halve(x2, 6) == x8;
    assert Halve(x1, 7) == x8;
    assert Halve(x, 8) == x8;
  }

  /** XOR with a byte stays in the block of 256 codes of the other operand. */
  lemma XorByteBlock(a: nat, b: nat)
    requires a < 256
    ensures Xor(a, b) / 256 == b / 256
    ensures b < 256 ==> Xor(a, b) < 256
  {
    HalveByte(a);
    HalveByte(b);
    HalveByte(Xor(a, b));
    XorHigh(a, b, 8);
  }

  /** A byte XOR a character is again a character: surrogates form whole blocks of 256. */
  function XorChar(b: Base64.byte, c: char): (r: char)
    ensures r as int == Xor(b, c as int)
  {
    XorByteBlock(b, c as int);
    Xor(b, c as int) as char
  }

  // ---------------------------------------------------------------------
  // The key

  /** The password repeated and cut to `length` characters: position `i` holds `password[i % |password|]`. */
  function RepeatKey(password: string, length: nat): (key: string)
    requires length > 0 ==> password != ""
  {
    seq(length, i requires 0 <= i < length => password[i % |password|])
  }

  /** `createKey`: grows the key one password at a time, then cuts it. */
  method CreateKey(password: string, length: nat) returns (key: string)
    requires length > 0 ==> password != ""
    ensures key == RepeatKey(password, length)
  {
    key := "";
    while |key| < length
      invariant password != "" ==> |key| % |password| == 0
      invariant password != "" ==> forall i :: 0 <= i < |key| ==> key[i] == password[i % |password|]
      decreases length - |key|
    {
      ghost var before := key;
      key := key + password;
      forall i | |before| <= i < |key|
        ensures key[i] == password[i % |password|]
      {
        Arith.DivUnique(i, |password|, |before| / |password| , i - |before|);
      }
      Arith.DivUnique(|key|, |password|, |before| / |password| + 1, 0);
    }
    key := key[..length];
  }

  // ---------------------------------------------------------------------
  // Encryption and decryption as functions

  datatype CipherError = InvalidCharacter | DecryptionFailed

  /** The codes of `s` XOR the codes of `key`, position by position. */
  function XorCodes(s: string, key: string): (r: seq<nat>)
    requires |key| == |s|
    ensures |r| == |s|
  {
    seq(|s|, i requires 0 <= i < |s| => Xor(s[i] as int, key[i] as int))
  }

  predicate AllBytes(codes: seq<nat>)
  {
    forall i :: 0 <= i < |codes| ==> codes[i] < 256
  }

  function ToBytes(codes: seq<nat>): (r: seq<Base64.byte>)
    requires AllBytes(codes)
    ensures |r| == |codes|
  {
    seq(|codes|, i requires 0 <= i < |codes| => codes[i] as Base64.byte)
  }

  /** `btoa` on a binary string: it throws when a code is 256 or more. */
  function Btoa(codes: seq<nat>): (r: Option<string>)
  {
    if AllBytes(codes) then Some(Base64.Encode(ToBytes(codes))) else None
  }

  /** What `encrypt(content, password)` returns or throws. */
  function Encrypted(content: string, password: string): Result<string, CipherError>
    requires content != "" ==> password != ""
  {
    if content == "" then Success("")
    else
      match Btoa(XorCodes(content, RepeatKey(password, |content|)))
      case Some(e) => Success(e)
      case None => Failure(InvalidCharacter)
  }

  /** The bytes XOR the key, read back as text. */
  function XorText(bytes: seq<Base64.byte>, key: string): (r: string)
    requires |key| == |bytes|
    ensures |r| == |bytes|
  {
    seq(|bytes|, i requires 0 <= i < |bytes| => XorChar(bytes[i], key[i]))
  }

  /** What `decrypt(encrypted, password)` returns or throws. */
  function Decrypted(encrypted: string, password: string): Result<string, CipherError>
    requires password == "" ==> encrypted == "" || Base64.Decode(encrypted).None?
  {
    if encrypted == "" then Success("")
    else
      match Base64.Decode(encrypted)
      case None => Failure(DecryptionFailed)
      case Some(bytes) => Success(XorText(bytes, RepeatKey(password, |bytes|)))
  }

  // ---------------------------------------------------------------------
  // The loops of the source

  /** `encrypt`: XOR each code with the key, then `btoa`. */
  method Encrypt(content: string, password: string) returns (r: Result<string, CipherError>)
    requires content != "" ==> password != ""
    ensures r == Encrypted(content, password)
  {
    if content == "" {
      return Success("");
    }
    var key := CreateKey(password, |content|);
    var result: seq<nat> := [];
    for i := 0 to |content|
      invariant |result| == i
      invariant forall k :: 0 <= k < i ==> result[k] == Xor(content[k] as int, key[k] as int)
    {
      assert i % |key| == i;
      result := result + [Xor(content[i] as int, key[i % |key|] as int)];
    }
    assert result == XorCodes(content, key);
    var encoded := Btoa(result);
    if encoded.Some? {
      r := Success(encoded.value);
    } else {
      r := Failure(InvalidCharacter);
    }
  }

  /** `decrypt`: `atob`, then XOR each code with the key; a failing `atob` becomes "Decryption failed". */
  method Decrypt(encrypted: string, password: string) returns (r: Result<string, CipherError>)
    requires password == "" ==> encrypted == "" || Base64.Decode(encrypted).None?
    ensures r == Decrypted(encrypted, password)
  {
    if encrypted == "" {
      return Success("");
    }
    var decoded := Base64.Decode(encrypted);
    if decoded.None? {
      return Failure(DecryptionFailed);
    }
    var bytes := decoded.value;
    assert password != "";
    var key := CreateKey(password, |bytes|);
    var text := XorBytes(bytes, key);
    r := Success(text);
  }

  /** The loop of `decrypt`: each decoded code XOR the key, back to a character. */
  method XorBytes(bytes: seq<Base64.byte>, key: string) returns (result: string)
    requires |key| == |bytes|
    ensures result == XorText(bytes, key)
  {
    result := "";
    for i := 0 to |bytes|
      invariant |result| == i
      invariant forall k :: 0 <= k < i ==> result[k] == XorChar(bytes[k], key[k])
    {
      assert i % |key| == i;
      result := result + [XorChar(bytes[i], key[i % |key|])];
    }
  }

  // ---------------------------------------------------------------------
  // Properties of the cipher

  /** The XOR step with one key, applied twice, is the identity. */
  lemma XorInvolution(s: string, key: string)
    requires |key| == |s|
    requires AllBytes(XorCodes(s, key))
    ensures XorText(ToBytes(XorCodes(s, key)), key) == s
  {
    var t := XorText(ToBytes(XorCodes(s, key)), key);
    forall i | 0 <= i < |s|
      ensures t[i] == s[i]
    {
      XorTwice(s[i] as int, key[i] as int);
    }
  }

  /** Decrypting with the same password undoes a successful encryption. */
  lemma DecryptEncrypt(s: string, password: string)
    requires password != ""
    requires Encrypted(s, password).Success?
    ensures Decrypted(Encrypted(s, password).value, password) == Success(s)
  {
    if s != "" {
      var key := RepeatKey(password, |s|);
      var codes := XorCodes(s, key);
      assert AllBytes(codes);
      var bytes := ToBytes(codes);
      var e := Base64.Encode(bytes);
      assert Encrypted(s, password) == Success(e);
      Base64.DecodeEncode(bytes);
      assert e != "";
      assert RepeatKey(password, |bytes|) == key;
      XorInvolution(s, key);
      assert Decrypted(e, password) == Success(XorText(bytes, key));
    }
  }

  /** Latin-1 text and password always encrypt: no code reaches 256. */
  lemma EncryptLatin1(s: string, password: string)
    requires password != ""
    requires forall i :: 0 <= i < |s| ==> s[i] as int < 256
    requires forall i :: 0 <= i < |password| ==> password[i] as int < 256
    ensures Encrypted(s, password).Success?
  {
    if s != "" {
      var key := RepeatKey(password, |s|);
      forall i | 0 <= i < |s|
        ensures XorCodes(s, key)[i] < 256
      {
        XorByteBlock(s[i] as int, key[i] as int);
      }
      assert AllBytes(XorCodes(s, key));
    }
  }

  /** The output of `encrypt` is Base64: four characters per started group of three, alphabet then padding. */
  lemma EncryptIsBase64(s: string, password: string)
    requires s != "" ==> password != ""
    requires Encrypted(s, password).Success?
    ensures var e := Encrypted(s, password).value;
      |e| == 4 * ((|s| + 2) / 3) &&
      forall k :: 0 <= k < |e| ==> Base64.InAlphabet(e[k]) || (e[k] == '=' && k >= |e| - 2)
  {
  }

  /** Decryption fails exactly when the text is not Base64; the password plays no part. */
  lemma DecryptFailsOnlyOnBadBase64(e: string, password: string)
    requires password == "" ==> e == "" || Base64.Decode(e).None?
    ensures Decrypted(e, password).Failure? <==> e != "" && Base64.Decode(e).None?
    ensures Decrypted(e, password).Failure? ==> Decrypted(e, password).error == DecryptionFailed
  {
  }

  // ---------------------------------------------------------------------
  // The 32-bit hash

  const TwoTo32: int := 0x1_0000_0000
  const TwoTo31: int := 0x8000_0000

  /** JavaScript's ToInt32: wrap into the signed 32-bit range. */
  function ToInt32(x: int): (r: int)
    ensures -TwoTo31 <= r < TwoTo31
    ensures (x - r) % TwoTo32 == 0
  {
    var r := (x + TwoTo31) % TwoTo32 - TwoTo31;
    Arith.DivUnique(x + TwoTo31, TwoTo32, (x + TwoTo31) / TwoTo32, r + TwoTo31);
    Arith.DivUnique(x - r, TwoTo32, (x + TwoTo31) / TwoTo32, 0);
    r
  }

  /** Adding a multiple of 2^32 does not change the wrapped value. */
  lemma ToInt32Shift(x: int, k: int)
    ensures ToInt32(x + k * TwoTo32) == ToInt32(x)
  {
    var y := x + TwoTo31;
    Arith.DivUnique(y + k * TwoTo32, TwoTo32, y / TwoTo32 + k, y % TwoTo32);
  }

  /** The hash after every character: `h = int32(h * 31 + code)`, from 0. */
  function HashValue(s: string): (h: int)
    ensures -TwoTo31 <= h < TwoTo31
  {
    if s == [] then 0 else ToInt32(31 * HashValue(s[..|s| - 1]) + s[|s| - 1] as int)
  }

  function Abs(x: int): nat
  {
    if x < 0 then -x else x
  }

  /** `simpleHash`: the loop of `(h << 5) - h + code` and `h & h`, then `Math.abs(h).toString(16)`. */
  method SimpleHash(input: string) returns (r: string)
    ensures r == Text.ToRadix(Abs(HashValue(input)), 16)
  {
    var hash := 0;
    for i := 0 to |input|
      invariant hash == HashValue(input[..i])
    {
      var code := input[i] as int;
      var shifted := ToInt32(hash * 32);
      ghost var k := (hash * 32 - shifted) / TwoTo32;
      assert shifted == hash * 32 + (-k) * TwoTo32;
      hash := shifted - hash + code;
      hash := ToInt32(hash);
      ToInt32Shift(31 * HashValue(input[..i]) + code, -k);
      assert input[..i + 1][..i] == input[..i];
    }
    assert input[..|input|] == input;
    r := Text.ToRadix(Abs(hash), 16);
  }

  function Pow16(k: nat): nat
  {
    if k == 0 then 1 else 16 * Pow16(k - 1)
  }

  /** A number below 16^k has at most k hexadecimal digits. */
  lemma {:induction false} HexLength(n: nat, k: nat)
    requires k >= 1 && n < Pow16(k)
    ensures |Text.ToRadix(n, 16)| <= k
    decreases k
  {
    if n >= 16 {
      HexLength(n / 16, k - 1);
    }
  }

  /** The hash text is a lower-case hexadecimal number of at most eight digits, "0" for the empty string. */
  lemma SimpleHashShape(input: string)
    ensures var r := Text.ToRadix(Abs(HashValue(input)), 16);
      1 <= |r| <= 8 &&
      Text.FromRadix(r, 16) == Some(Abs(HashValue(input))) &&
      (input == "" ==> r == "0")
  {
    assert Pow16(8) == 0x1_0000_0000;
    HexLength(Abs(HashValue(input)), 8);
    Text.FromToRadix(Abs(HashValue(input)), 16);
  }
}
