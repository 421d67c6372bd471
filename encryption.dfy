/**
 * The payload framing of ClipGitter's EncryptionManager.
 *
 * An encrypted payload is base64 of `salt(16) ++ ciphertext ++ iv(16)`.  The
 * salt is drawn once per process (the static constructor) and reused by every
 * Encrypt call; the IV is fresh per call.  The cipher, the key derivation, the
 * random generator and base64 are library code: they are passed in as a
 * `Primitives` value.  `Base64Law` and `CipherLaw` state what the framing and
 * the round trip rely on; the cipher law includes the one character the text
 * reader loses.
 */
module Crypto {
  import opened Wrappers

  newtype byte = b: int | 0 <= b < 256

  /** A 16-byte buffer: the salt and the IV. */
  type Block16 = s: seq<byte> | |s| == 16 witness seq(16, _ => 0 as byte)

  const SaltSize: nat := 16
  const IvSize: nat := 16
  const Iterations: int := 10000
  const KeySize: int := 32
  const Sentinel: string := "Decryption failed. Please provide the correct password."

  /** The library functions the manager calls. */
  datatype Primitives = Primitives(
    /** Rfc2898DeriveBytes(password, salt, iterations, SHA256).GetBytes(size) */
    deriveKey: (string, seq<byte>, int, int) -> seq<byte>,
    /** StreamWriter over an encrypting CryptoStream: key, iv, plaintext to ciphertext */
    cbcEncrypt: (seq<byte>, seq<byte>, string) -> seq<byte>,
    /** StreamReader over a decrypting CryptoStream; None when reading throws (bad padding) */
    cbcDecrypt: (seq<byte>, seq<byte>, seq<byte>) -> Option<string>,
    /** Convert.ToBase64String */
    toBase64: seq<byte> -> string,
    /** Convert.FromBase64String; None when it throws FormatException */
    fromBase64: string -> Option<seq<byte>>)

  /** U+FEFF, the character UTF-8 writes as the byte-order mark EF BB BF. */
  const ByteOrderMark: char := '\U{FEFF}'

  /**
   * What the StreamReader gives back for the UTF-8 bytes the StreamWriter
   * wrote: the writer emits no preamble, but the reader detects byte-order
   * marks, so a text that itself starts with U+FEFF loses that one character.
   */
  function ReadBack(text: string): string {
    if |text| > 0 && text[0] == ByteOrderMark then text[1..] else text
  }

  /** Convert.FromBase64String inverts Convert.ToBase64String. */
  ghost predicate Base64Law(p: Primitives) {
    forall bytes :: p.fromBase64(p.toBase64(bytes)) == Some(bytes)
  }

  /** Decryption under the same key and IV gives back what the reader makes of the written text. */
  ghost predicate CipherLaw(p: Primitives) {
    forall key, iv, text :: p.cbcDecrypt(key, iv, p.cbcEncrypt(key, iv, text)) == Some(ReadBack(text))
  }

  /** The exceptions Decrypt lets escape: they are raised outside its `try`. */
  datatype Exception = FormatException | ArgumentException

  /** What a call of Decrypt does: return a string (possibly the sentinel) or raise. */
  datatype Decrypted = Returned(text: string) | Raised(error: Exception)

  /** The key both directions derive: 10000 iterations, 32 bytes. */
  function Key(p: Primitives, password: string, salt: seq<byte>): seq<byte> {
    p.deriveKey(password, salt, Iterations, KeySize)
  }

  /** The byte layout of a payload before base64. */
  function Pack(salt: seq<byte>, ciphertext: seq<byte>, iv: seq<byte>): seq<byte> {
    salt + ciphertext + iv
  }

  /** The payload Encrypt returns for a given salt and IV. */
  function EncryptSpec(p: Primitives, salt: Block16, iv: Block16, plainText: string, password: string): string {
    p.toBase64(Pack(salt, p.cbcEncrypt(Key(p, password, salt), iv, plainText), iv))
  }

  /** What Decrypt does with a payload: where it raises, where it returns the sentinel. */
  function DecryptSpec(p: Primitives, cipherText: string, password: string): Decrypted {
    match p.fromBase64(cipherText)
    case None => Raised(FormatException)
    case Some(combined) =>
      if |combined| < SaltSize then Raised(ArgumentException)
      else
        var key := Key(p, password, combined[..SaltSize]);
        var iv := combined[|combined| - IvSize..];
        if |combined| - 32 < 0 then Returned(Sentinel)
        else
          match p.cbcDecrypt(key, iv, combined[SaltSize..SaltSize + (|combined| - 32)])
          case None => Returned(Sentinel)
          case Some(text) => Returned(text)
  }

  /** Array.Copy(src, srcIndex, dst, dstIndex, length), for ranges that fit. */
  method CopyInto(src: seq<byte>, srcIndex: nat, dst: array<byte>, dstIndex: nat, length: nat)
    requires srcIndex + length <= |src| && dstIndex + length <= dst.Length
    modifies dst
    ensures forall k :: 0 <= k < dst.Length ==>
      dst[k] == if dstIndex <= k < dstIndex + length then src[srcIndex + (k - dstIndex)] else old(dst[k])
  {
    for i := 0 to length
      invariant forall k :: 0 <= k < dst.Length ==>
        dst[k] == if dstIndex <= k < dstIndex + i then src[srcIndex + (k - dstIndex)] else old(dst[k])
    {
      dst[dstIndex + i] := src[srcIndex + i];
    }
  }

  /**
   * The manager as one process sees it: `salt` is the static `_salt`, which the
   * static constructor fills from the random generator once.
   */
  class EncryptionManager {
    const salt: Block16

    /** The static constructor: `generated` is what GenerateSalt(16) drew. */
    constructor (generated: Block16)
      ensures salt == generated
    {
      salt := generated;
    }

    /** Encrypt `plainText`; `freshIv` is what GenerateSalt(16) drew for this call. */
    method Encrypt(p: Primitives, plainText: string, password: string, freshIv: Block16) returns (payload: string)
      ensures payload == EncryptSpec(p, salt, freshIv, plainText, password)
    {
      var key := p.deriveKey(password, salt, Iterations, KeySize);
      var ciphertext := p.cbcEncrypt(key, freshIv, plainText);
      var iv := freshIv;
      var combined := new byte[|salt| + |ciphertext| + |iv|];
      CopyInto(salt, 0, combined, 0, |salt|);
      CopyInto(ciphertext, 0, combined, |salt|, |ciphertext|);
      CopyInto(iv, 0, combined, |salt| + |ciphertext|, |iv|);
      assert combined[..] == Pack(salt, ciphertext, iv);
      payload := p.toBase64(combined[..]);
    }

    /** Decrypt a payload; see DecryptSpec for the raise/sentinel boundary. */
    static method Decrypt(p: Primitives, cipherText: string, password: string) returns (r: Decrypted)
      ensures r == DecryptSpec(p, cipherText, password)
      ensures r.Raised? <==> (p.fromBase64(cipherText).None? || |p.fromBase64(cipherText).value| < SaltSize)
    {
      var decoded := p.fromBase64(cipherText);
      if decoded.None? {
        return Raised(FormatException);
      }
      var bytes := decoded.value;
      var combined := new byte[|bytes|](i requires 0 <= i < |bytes| => bytes[i]);
      var salt := new byte[SaltSize];
      if combined.Length < SaltSize {
        // Array.Copy(combined, salt, 16) throws before the try is entered
        return Raised(ArgumentException);
      }
      CopyInto(combined[..], 0, salt, 0, SaltSize);
      assert salt[..] == bytes[..SaltSize];
      var key := p.deriveKey(password, salt[..], Iterations, KeySize);
      var iv := new byte[IvSize];
      CopyInto(combined[..], combined.Length - IvSize, iv, 0, IvSize);
      assert iv[..] == bytes[|bytes| - IvSize..];
      var count := combined.Length - 32;
      if count < 0 {
        // new MemoryStream(combined, 16, count) throws inside the try
        return Returned(Sentinel);
      }
      assert combined[..][SaltSize..SaltSize + count] == bytes[SaltSize..SaltSize + count];
      var plain := p.cbcDecrypt(key, iv[..], combined[..][SaltSize..SaltSize + count]);
      if plain.None? {
        return Returned(Sentinel);
      }
      return Returned(plain.value);
    }
  }

  /** The decoded payload has length 32 + |ciphertext|, with the salt, ciphertext and IV at their offsets. */
  lemma {:induction false} PayloadLayout(p: Primitives, salt: Block16, iv: Block16, plainText: string, password: string)
    requires Base64Law(p)
    ensures var ct := p.cbcEncrypt(Key(p, password, salt), iv, plainText);
            && p.fromBase64(EncryptSpec(p, salt, iv, plainText, password)).Some?
            && var b := p.fromBase64(EncryptSpec(p, salt, iv, plainText, password)).value;
            && |b| == SaltSize + |ct| + IvSize
            && b[..SaltSize] == salt
            && b[SaltSize..SaltSize + |ct|] == ct
            && b[|b| - IvSize..] == iv
  {
    var ct := p.cbcEncrypt(Key(p, password, salt), iv, plainText);
    var b := Pack(salt, ct, iv);
    assert p.fromBase64(p.toBase64(b)) == Some(b);
    assert b[..SaltSize] == salt;
    assert b[SaltSize..SaltSize + |ct|] == ct;
    assert b[|b| - IvSize..] == iv;
  }

  /** The key Decrypt derives from an Encrypt payload is the key Encrypt used. */
  lemma DecryptKeyIsEncryptKey(p: Primitives, salt: Block16, iv: Block16, plainText: string, password: string)
    requires Base64Law(p)
    ensures var b := p.fromBase64(EncryptSpec(p, salt, iv, plainText, password)).value;
            p.fromBase64(EncryptSpec(p, salt, iv, plainText, password)).Some? &&
            |b| >= SaltSize && Key(p, password, b[..SaltSize]) == Key(p, password, salt)
  {
    PayloadLayout(p, salt, iv, plainText, password);
  }

  /**
   * Decrypt(Encrypt(t, pw), pw) == t, except that a text starting with U+FEFF
   * comes back without that character.
   */
  lemma RoundTrip(p: Primitives, salt: Block16, iv: Block16, plainText: string, password: string)
    requires Base64Law(p) && CipherLaw(p)
    ensures DecryptSpec(p, EncryptSpec(p, salt, iv, plainText, password), password) == Returned(ReadBack(plainText))
    ensures (|plainText| == 0 || plainText[0] != ByteOrderMark) ==>
            DecryptSpec(p, EncryptSpec(p, salt, iv, plainText, password), password) == Returned(plainText)
    ensures |plainText| > 0 && plainText[0] == ByteOrderMark ==>
            DecryptSpec(p, EncryptSpec(p, salt, iv, plainText, password), password) == Returned(plainText[1..])
  {
    PayloadLayout(p, salt, iv, plainText, password);
    var ct := p.cbcEncrypt(Key(p, password, salt), iv, plainText);
    var b := p.fromBase64(EncryptSpec(p, salt, iv, plainText, password)).value;
    assert SaltSize + (|b| - 32) == SaltSize + |ct|;
    assert p.cbcDecrypt(Key(p, password, salt), iv, ct) == Some(ReadBack(plainText));
  }

  /**
   * Decrypting a payload of Encrypt under any password, the right one or not,
   * never raises: the buffer always decodes and always holds the salt.
   */
  lemma WrongPasswordNeverRaises(p: Primitives, salt: Block16, iv: Block16, plainText: string,
                                 password: string, otherPassword: string)
    requires Base64Law(p)
    ensures DecryptSpec(p, EncryptSpec(p, salt, iv, plainText, password), otherPassword).Returned?
  {
    PayloadLayout(p, salt, iv, plainText, password);
  }

  /** Every payload of one process starts with the same 16 bytes; two IVs that differ give payloads that differ. */
  lemma SharedSaltFreshIv(p: Primitives, salt: Block16, iv1: Block16, iv2: Block16,
                          text1: string, text2: string, pw1: string, pw2: string)
    requires Base64Law(p)
    ensures p.fromBase64(EncryptSpec(p, salt, iv1, text1, pw1)).Some?
    ensures p.fromBase64(EncryptSpec(p, salt, iv2, text2, pw2)).Some?
    ensures p.fromBase64(EncryptSpec(p, salt, iv1, text1, pw1)).value[..SaltSize]
         == p.fromBase64(EncryptSpec(p, salt, iv2, text2, pw2)).value[..SaltSize]
    ensures iv1 != iv2 ==> EncryptSpec(p, salt, iv1, text1, pw1) != EncryptSpec(p, salt, iv2, text2, pw2)
  {
    PayloadLayout(p, salt, iv1, text1, pw1);
    PayloadLayout(p, salt, iv2, text2, pw2);
  }

  /**
   * A 16..31-byte buffer, or a ciphertext span the cipher cannot decrypt (a
   * wrong password, in practice), yields exactly the sentinel.
   */
  lemma SentinelOnCipherFailure(p: Primitives, cipherText: string, password: string)
    requires p.fromBase64(cipherText).Some?
    requires var b := p.fromBase64(cipherText).value;
             |b| >= SaltSize &&
             (|b| < 32 || p.cbcDecrypt(Key(p, password, b[..SaltSize]), b[|b| - IvSize..], b[SaltSize..|b| - IvSize]).None?)
    ensures DecryptSpec(p, cipherText, password) == Returned(Sentinel)
  {
    var b := p.fromBase64(cipherText).value;
    if |b| >= 32 {
      assert SaltSize + (|b| - 32) == |b| - IvSize;
    }
  }

  /**
   * Encrypt then Decrypt with the same password, through the methods, returns
   * the plaintext, less a leading U+FEFF.
   */
  method EncryptThenDecrypt(p: Primitives, saltDrawn: Block16, ivDrawn: Block16, plainText: string, password: string)
    returns (r: Decrypted)
    requires Base64Law(p) && CipherLaw(p)
    ensures r == Returned(ReadBack(plainText))
    ensures (|plainText| == 0 || plainText[0] != ByteOrderMark) ==> r == Returned(plainText)
  {
    var manager := new EncryptionManager(saltDrawn);
    var payload := manager.Encrypt(p, plainText, password, ivDrawn);
    r := EncryptionManager.Decrypt(p, payload, password);
    RoundTrip(p, saltDrawn, ivDrawn, plainText, password);
  }
}
