/** The encrypted model package: written by tinymaix_model_encryptor.py, read by decrypt_model of
    tinymaix_inference.c. Padding is PKCS#7 (section 6.3 of RFC 5652), chaining is CBC (section 6.2
    of NIST SP 800-38A), over any block cipher. */
module Package {
  import opened Bytes
  import opened Options

  // ---------- block cipher and chaining ----------

  /** Exclusive or of two bytes, bit by bit. */
  function XorBits(a: nat, b: nat): nat
    decreases a + b
  {
    if a == 0 && b == 0 then 0 else (a % 2 + b % 2) % 2 + 2 * XorBits(a / 2, b / 2)
  }

  lemma {:induction false} XorBound(a: nat, b: nat, n: nat)
    requires a < Pow2(n) && b < Pow2(n)
    ensures XorBits(a, b) < Pow2(n)
    decreases n
  {
    if n > 0 && (a > 0 || b > 0) { XorBound(a / 2, b / 2, n - 1); }
  }

  function Pow2(n: nat): nat { if n == 0 then 1 else 2 * Pow2(n - 1) }

  /** Low bit and remaining bits of an exclusive or. */
  lemma XorUnfold(a: nat, b: nat)
    ensures XorBits(a, b) % 2 == (a % 2 + b % 2) % 2 && XorBits(a, b) / 2 == XorBits(a / 2, b / 2)
  {
  }

  lemma Parity(p: nat, q: nat)
    requires p < 2 && q < 2
    ensures ((p + q) % 2 + q) % 2 == p
  {
  }

  lemma {:induction false} XorTwice(a: nat, b: nat)
    ensures XorBits(XorBits(a, b), b) == a
    decreases a + b
  {
    hide XorBits;
    if a > 0 || b > 0 {
      XorTwice(a / 2, b / 2);
      XorUnfold(a, b);
      XorUnfold(XorBits(a, b), b);
      Parity(a % 2, b % 2);
      Halves(XorBits(XorBits(a, b), b), a);
    } else {
      XorNothing();
    }
  }

  lemma XorNothing()
    ensures XorBits(0, 0) == 0
  {
  }

  lemma Halves(x: nat, y: nat)
    requires x % 2 == y % 2 && x / 2 == y / 2
    ensures x == y
  {
  }

  /** Bit i of n. */
  function Bit(n: nat, i: nat): nat { if i == 0 then n % 2 else Bit(n / 2, i - 1) }

  /** A bit of an exclusive or is set exactly if it is set in one of the two. */
  lemma {:induction false} XorBit(a: nat, b: nat, i: nat)
    ensures Bit(XorBits(a, b), i) == 1 <==> Bit(a, i) != Bit(b, i)
    decreases i
  {
    hide XorBits;
    XorUnfold(a, b);
    if i > 0 { XorBit(a / 2, b / 2, i - 1); }
  }

  function XorByte(a: byte, b: byte): (r: byte)
    ensures XorBits(a, b) == r
  {
    assert XorBits(a, b) < 0x100 by {
      assert Pow2(8) == 0x100 by { assert Pow2(4) == 16; }
      XorBound(a, b, 8);
    }
    XorBits(a, b)
  }

  function XorBlock(a: seq<byte>, b: seq<byte>): (r: seq<byte>)
    requires |a| == |b|
    ensures |r| == |a| && forall i :: 0 <= i < |r| ==> r[i] == XorByte(a[i], b[i])
  {
    if a == [] then [] else XorBlock(a[..|a| - 1], b[..|b| - 1]) + [XorByte(a[|a| - 1], b[|b| - 1])]
  }

  lemma XorBlockTwice(a: seq<byte>, b: seq<byte>)
    requires |a| == |b|
    ensures XorBlock(XorBlock(a, b), b) == a
  {
    forall i | 0 <= i < |a| ensures XorBlock(XorBlock(a, b), b)[i] == a[i] {
      XorTwice(a[i], b[i]);
    }
  }

  /** A keyed function on blocks and its inverse; AES-128 in the source. */
  datatype Cipher = Cipher(enc: (seq<byte>, seq<byte>) -> seq<byte>, dec: (seq<byte>, seq<byte>) -> seq<byte>)

  /** A keyed permutation of the 16-byte blocks. */
  ghost predicate IsBlockCipher(c: Cipher) {
    forall k: seq<byte>, b: seq<byte> :: |b| == 16 ==>
      && |(c.enc)(k, b)| == 16 && |(c.dec)(k, b)| == 16
      && (c.dec)(k, (c.enc)(k, b)) == b && (c.enc)(k, (c.dec)(k, b)) == b
  }

  function CbcEncrypt(c: Cipher, key: seq<byte>, iv: seq<byte>, data: seq<byte>): (r: seq<byte>)
    requires IsBlockCipher(c) && |iv| == 16 && |data| % 16 == 0
    ensures |r| == |data|
    decreases |data|
  {
    if data == [] then [] else
    var x := (c.enc)(key, XorBlock(data[..16], iv));
    x + CbcEncrypt(c, key, x, data[16..])
  }

  function CbcDecrypt(c: Cipher, key: seq<byte>, iv: seq<byte>, data: seq<byte>): (r: seq<byte>)
    requires IsBlockCipher(c) && |iv| == 16 && |data| % 16 == 0
    ensures |r| == |data|
    decreases |data|
  {
    if data == [] then [] else
    XorBlock((c.dec)(key, data[..16]), iv) + CbcDecrypt(c, key, data[..16], data[16..])
  }

  lemma {:induction false} CbcDecryptsEncrypted(c: Cipher, key: seq<byte>, iv: seq<byte>, data: seq<byte>)
    requires IsBlockCipher(c) && |iv| == 16 && |data| % 16 == 0
    ensures CbcDecrypt(c, key, iv, CbcEncrypt(c, key, iv, data)) == data
    decreases |data|
  {
    hide XorBlock;
    if data != [] {
      var p := XorBlock(data[..16], iv);
      var x := (c.enc)(key, p);
      var e := CbcEncrypt(c, key, iv, data);
      assert |x| == 16 && (c.dec)(key, x) == p;
      assert e[..16] == x && e[16..] == CbcEncrypt(c, key, x, data[16..]);
      XorBlockTwice(data[..16], iv);
      CbcDecryptsEncrypted(c, key, x, data[16..]);
    }
  }

  lemma {:induction false} CbcEncryptsDecrypted(c: Cipher, key: seq<byte>, iv: seq<byte>, data: seq<byte>)
    requires IsBlockCipher(c) && |iv| == 16 && |data| % 16 == 0
    ensures CbcEncrypt(c, key, iv, CbcDecrypt(c, key, iv, data)) == data
    decreases |data|
  {
    hide XorBlock;
    if data != [] {
      var p := (c.dec)(key, data[..16]);
      var d := CbcDecrypt(c, key, iv, data);
      assert |p| == 16 && (c.enc)(key, p) == data[..16];
      assert d[..16] == XorBlock(p, iv) && d[16..] == CbcDecrypt(c, key, data[..16], data[16..]);
      XorBlockTwice(p, iv);
      CbcEncryptsDecrypted(c, key, data[..16], data[16..]);
    }
  }

  function Block(s: seq<byte>, i: nat): (r: seq<byte>)
    requires 16 * i + 16 <= |s|
    ensures |r| == 16
  {
    s[16 * i..16 * i + 16]
  }

  /** Every ciphertext block is the encryption of its plaintext block mixed with the ciphertext block before
      it, the first one with the IV. */
  lemma {:induction false} CbcBlock(c: Cipher, key: seq<byte>, iv: seq<byte>, data: seq<byte>, i: nat)
    requires IsBlockCipher(c) && |iv| == 16 && |data| % 16 == 0 && 16 * i + 16 <= |data|
    ensures var e := CbcEncrypt(c, key, iv, data);
            Block(e, i) == (c.enc)(key, XorBlock(Block(data, i), if i == 0 then iv else Block(e, i - 1)))
    decreases i
  {
    hide XorBlock, CbcEncrypt, IsBlockCipher;
    var e, x := CbcEncrypt(c, key, iv, data), (c.enc)(key, XorBlock(data[..16], iv));
    CbcFirst(c, key, iv, data);
    if i == 0 {
      assert Block(e, 0) == x && Block(data, 0) == data[..16];
    } else {
      CbcBlock(c, key, x, data[16..], i - 1);
      BlockBehind(data, data[..16], data[16..], i);
      BlockBehind(e, x, e[16..], i);
      if i > 1 { BlockBehind(e, x, e[16..], i - 1); } else { assert Block(e, 0) == x; }
    }
  }

  lemma CbcFirst(c: Cipher, key: seq<byte>, iv: seq<byte>, data: seq<byte>)
    requires IsBlockCipher(c) && |iv| == 16 && |data| % 16 == 0 && data != []
    ensures var e, x := CbcEncrypt(c, key, iv, data), (c.enc)(key, XorBlock(data[..16], iv));
            |x| == 16 && e == x + CbcEncrypt(c, key, x, data[16..]) && e[16..] == CbcEncrypt(c, key, x, data[16..])
  {
    hide XorBlock;
    var x := (c.enc)(key, XorBlock(data[..16], iv));
    assert |x| == 16;
    assert (x + CbcEncrypt(c, key, x, data[16..]))[16..] == CbcEncrypt(c, key, x, data[16..]);
  }

  lemma BlockBehind(s: seq<byte>, front: seq<byte>, rest: seq<byte>, i: nat)
    requires |front| == 16 && s == front + rest && 0 < i && 16 * i + 16 <= |s|
    ensures Block(s, i) == Block(rest, i - 1)
  {
  }

  // ---------- the writer ----------

  const TMAX: seq<byte> := [0x54, 0x4D, 0x41, 0x58]
  const MAIX: seq<byte> := [0x4D, 0x41, 0x49, 0x58]
  const VERSION := 3
  const HEADER_SIZE := 28
  const MAX_MODEL_SIZE := 4096

  /** _pkcs7_pad with blocks of 16. */
  function Pad(data: seq<byte>): (r: seq<byte>)
    ensures |r| % 16 == 0 && |data| < |r| <= |data| + 16 && data <= r
  {
    var n := 16 - |data| % 16;
    data + Repeat(n, n)
  }

  /** create_encrypted_package with the key and IV given; struct.pack refuses a size beyond 32 bits. */
  function CreatePackage(c: Cipher, key: seq<byte>, iv: seq<byte>, model: seq<byte>): Option<seq<byte>>
    requires IsBlockCipher(c) && |iv| == 16
  {
    if |model| >= 0x1_0000_0000 then None else
    Some(TMAX + Le32Bytes(VERSION) + Le32Bytes(|model|) + iv + CbcEncrypt(c, key, iv, Pad(model)))
  }

  /** The package byte by byte: TMAX, version 3, the size of the model, the IV, the ciphertext of the padded
      model; a model of four gigabytes or more has none. */
  lemma PackageBytes(c: Cipher, key: seq<byte>, iv: seq<byte>, model: seq<byte>)
    requires IsBlockCipher(c) && |iv| == 16
    ensures CreatePackage(c, key, iv, model).None? <==> |model| >= 4294967296
    ensures CreatePackage(c, key, iv, model).Some? ==>
              var p := CreatePackage(c, key, iv, model).value;
              && |p| >= 28 && p[..8] == [0x54, 0x4D, 0x41, 0x58, 3, 0, 0, 0]
              && p[8] + 256 * (p[9] as int) + 65536 * (p[10] as int) + 16777216 * (p[11] as int) == |model|
              && p[12..28] == iv && p[28..] == CbcEncrypt(c, key, iv, Pad(model))
  {
    hide Pad, CbcEncrypt;
    if |model| < 0x1_0000_0000 {
      Le32OfBytes(|model|);
      assert Le32Bytes(VERSION) == [3, 0, 0, 0];
    }
  }

  // ---------- the reader ----------

  datatype Status =
    | Success | InvalidArgument | BufferTooSmall | GenericError | InsufficientMemory | BadState
    | CommunicationFailure | NotSupported | AlreadyExists | OtherError(code: int)

  /** What the crypto service answers to one decryption: a status for each call before the data, the
      derived key, and the block cipher. */
  datatype Crypto = Crypto(cipher: Cipher, key: seq<byte>, init: Status, derive: Status, importKey: Status,
                           setup: Status, setIv: Status)

  /** Every call before the data succeeds. */
  predicate Works(c: Crypto) {
    (c.init == Success || c.init == AlreadyExists) && c.derive == Success && c.importKey == Success &&
    c.setup == Success && c.setIv == Success
  }

  /** psa_cipher_update and psa_cipher_finish for CBC without padding: whole blocks come out if they
      fit, and a partial block at the end is an error. */
  function PsaDecrypt(c: Crypto, iv: seq<byte>, data: seq<byte>): (r: (Status, seq<byte>))
    requires IsBlockCipher(c.cipher) && |iv| == 16
    ensures |r.1| <= MAX_MODEL_SIZE && |r.1| <= |data|
  {
    var whole := |data| / 16 * 16;
    if whole > MAX_MODEL_SIZE then (BufferTooSmall, []) else
    (if |data| % 16 != 0 then InvalidArgument else Success, CbcDecrypt(c.cipher, c.key, iv, data[..whole]))
  }

  /** The outcome of decrypt_model: its status, the bytes it put at the front of the model buffer,
      and the new model size if it got that far. */
  datatype Decryption = Decryption(status: Status, raw: seq<byte>, size: Option<nat>)

  /** raw ends in n bytes of value n, 1 <= n <= 16. */
  predicate WellPadded(raw: seq<byte>) {
    raw != [] &&
    var n := raw[|raw| - 1];
    1 <= n <= 16 && n <= |raw| && forall i :: |raw| - n <= i < |raw| ==> raw[i] == n
  }

  /** The first failing call before the data, or Success. */
  function SetupStatus(c: Crypto): Status {
    if c.init != Success && c.init != AlreadyExists then c.init
    else if c.derive != Success then GenericError
    else if c.importKey != Success then c.importKey
    else if c.setup != Success then c.setup
    else c.setIv
  }

  /** The checks on the plain header, before any decryption. */
  function HeaderStatus(pkg: seq<byte>): Status {
    if |pkg| < HEADER_SIZE then InvalidArgument
    else if Le32(pkg, 0) != Le32(TMAX, 0) || Le32(pkg, 4) != VERSION then InvalidArgument
    else if Le32(pkg, 8) > MAX_MODEL_SIZE then BufferTooSmall
    else if |pkg| == HEADER_SIZE then InvalidArgument
    else Success
  }

  /** decrypt_model. */
  function Decrypt(c: Crypto, pkg: seq<byte>): Decryption
    requires IsBlockCipher(c.cipher)
  {
    if HeaderStatus(pkg) != Success then Decryption(HeaderStatus(pkg), [], None) else
    if SetupStatus(c) != Success then Decryption(SetupStatus(c), [], None) else
    var (status, raw) := PsaDecrypt(c, pkg[12..28], pkg[28..]);
    if status != Success then Decryption(status, raw, None) else
    if !WellPadded(raw) then Decryption(GenericError, raw, None) else
    var size := |raw| - raw[|raw| - 1];
    if size != Le32(pkg, 8) then Decryption(GenericError, raw, Some(size)) else
    if size >= 4 && Le32(raw, 0) != Le32(MAIX, 0) then Decryption(GenericError, raw, Some(size)) else
    Decryption(Success, raw, Some(size))
  }

  /** decrypt_model accepted the package and left the plaintext m. */
  ghost predicate Yields(c: Crypto, pkg: seq<byte>, m: seq<byte>)
    requires IsBlockCipher(c.cipher)
  {
    var d := Decrypt(c, pkg);
    d.status == Success && d.size == Some(|m|) && |m| <= |d.raw| && d.raw[..|m|] == m
  }

  // ---------- the two agree ----------

  lemma PadIsWellPadded(m: seq<byte>)
    ensures WellPadded(Pad(m)) && Pad(m)[|Pad(m)| - 1] == |Pad(m)| - |m|
  {
  }

  lemma WellPaddedIsPad(raw: seq<byte>)
    requires WellPadded(raw) && |raw| % 16 == 0
    ensures raw == Pad(raw[..|raw| - raw[|raw| - 1]])
  {
    var n := raw[|raw| - 1];
    var m := raw[..|raw| - n];
    assert |m| % 16 == (16 - n) % 16;
    assert 16 - |m| % 16 == n;
  }

  lemma SameWord(a: seq<byte>, b: seq<byte>)
    requires |a| == |b| == 4
    ensures Le32(a, 0) == Le32(b, 0) <==> a == b
  {
    BytesOfLe32(a);
    BytesOfLe32(b);
  }

  /** The fields of a package, wherever it came from. */
  lemma PackageFields(head: seq<byte>, version: seq<byte>, size: seq<byte>, iv: seq<byte>, ct: seq<byte>,
                      pkg: seq<byte>)
    requires |head| == |version| == |size| == 4 && |iv| == 16
    ensures pkg == head + version + size + iv + ct <==>
              |pkg| >= 28 && pkg[0..4] == head && pkg[4..8] == version && pkg[8..12] == size &&
              pkg[12..28] == iv && pkg[28..] == ct
  {
    if |pkg| >= 28 {
      assert pkg == pkg[0..4] + pkg[4..8] + pkg[8..12] + pkg[12..28] + pkg[28..];
    }
  }

  /** The header and ciphertext the writer produces for m under iv. */
  ghost predicate HasFields(c: Crypto, pkg: seq<byte>, m: seq<byte>)
    requires IsBlockCipher(c.cipher)
  {
    && |pkg| >= HEADER_SIZE && |m| < 0x1_0000_0000
    && pkg[0..4] == TMAX && pkg[4..8] == Le32Bytes(VERSION) && pkg[8..12] == Le32Bytes(|m|)
    && pkg[28..] == CbcEncrypt(c.cipher, c.key, pkg[12..28], Pad(m))
  }

  lemma PackageHasFields(c: Crypto, pkg: seq<byte>, m: seq<byte>)
    requires IsBlockCipher(c.cipher)
    ensures |pkg| >= HEADER_SIZE && CreatePackage(c.cipher, c.key, pkg[12..28], m) == Some(pkg) <==>
              HasFields(c, pkg, m)
  {
    hide Pad, CbcEncrypt, Le32Bytes;
    if |pkg| >= HEADER_SIZE && |m| < 0x1_0000_0000 {
      PackageFields(TMAX, Le32Bytes(VERSION), Le32Bytes(|m|), pkg[12..28],
                    CbcEncrypt(c.cipher, c.key, pkg[12..28], Pad(m)), pkg);
    }
  }

  /** The header of a package says TMAX, version 3 and size n exactly when the reader's word
      comparisons say so. */
  lemma HeaderWords(pkg: seq<byte>, n: nat)
    requires |pkg| >= HEADER_SIZE && n < 0x1_0000_0000
    ensures pkg[0..4] == TMAX <==> Le32(pkg, 0) == Le32(TMAX, 0)
    ensures pkg[4..8] == Le32Bytes(VERSION) <==> Le32(pkg, 4) == VERSION
    ensures pkg[8..12] == Le32Bytes(n) <==> Le32(pkg, 8) == n
  {
    hide Le32, Le32Bytes;
    Le32Slice(pkg, 0);
    Le32Slice(pkg, 4);
    Le32Slice(pkg, 8);
    SameWord(pkg[0..4], TMAX);
    SameWord(pkg[4..8], Le32Bytes(VERSION));
    SameWord(pkg[8..12], Le32Bytes(n));
    Le32OfBytes(VERSION);
    Le32OfBytes(n);
  }

  /** What the reader finds when it decrypts the writer's ciphertext of m. */
  lemma ReadsBack(c: Crypto, pkg: seq<byte>, m: seq<byte>)
    requires IsBlockCipher(c.cipher) && HasFields(c, pkg, m) && |m| < MAX_MODEL_SIZE
    ensures |pkg| > HEADER_SIZE && |pkg[28..]| % 16 == 0
    ensures PsaDecrypt(c, pkg[12..28], pkg[28..]) == (Success, Pad(m))
  {
    hide Pad, CbcEncrypt, CbcDecrypt;
    var ct := pkg[28..];
    CbcDecryptsEncrypted(c.cipher, c.key, pkg[12..28], Pad(m));
    assert |ct| / 16 * 16 == |ct|;
    assert ct[..|ct|] == ct;
  }

  /** The magic of the plaintext, read from the padded buffer. */
  lemma MagicOfPlain(raw: seq<byte>, m: seq<byte>)
    requires 4 <= |m| <= |raw| && raw[..|m|] == m
    ensures Le32(raw, 0) == Le32(MAIX, 0) <==> m[..4] == MAIX
  {
    hide Le32;
    Le32Slice(raw, 0);
    assert raw[0..4] == m[..4];
    SameWord(m[..4], MAIX);
  }

  /** The writer's package of m is accepted and gives back m. */
  lemma WriterThenReader(c: Crypto, pkg: seq<byte>, m: seq<byte>)
    requires IsBlockCipher(c.cipher) && Works(c) && HasFields(c, pkg, m)
    requires |m| < MAX_MODEL_SIZE && (|m| >= 4 ==> m[..4] == MAIX)
    ensures Yields(c, pkg, m)
  {
    hide Pad, CbcEncrypt, PsaDecrypt, Le32, Le32Bytes, WellPadded;
    HeaderWords(pkg, |m|);
    ReadsBack(c, pkg, m);
    PadIsWellPadded(m);
    if |m| >= 4 { MagicOfPlain(Pad(m), m); }
    assert Pad(m)[..|m|] == m;
  }

  /** An accepted package is the writer's package of what it gives. */
  lemma ReaderThenWriter(c: Crypto, pkg: seq<byte>, m: seq<byte>)
    requires IsBlockCipher(c.cipher) && Yields(c, pkg, m)
    ensures Works(c) && HasFields(c, pkg, m) && |m| < MAX_MODEL_SIZE && (|m| >= 4 ==> m[..4] == MAIX)
  {
    hide Pad, CbcEncrypt, CbcDecrypt, Le32, Le32Bytes;
    var d := Decrypt(c, pkg);
    HeaderWords(pkg, |m|);
    var ct := pkg[28..];
    assert ct[..|ct|] == ct;
    WellPaddedIsPad(d.raw);
    CbcEncryptsDecrypted(c.cipher, c.key, pkg[12..28], ct);
    if |m| >= 4 { MagicOfPlain(d.raw, m); }
  }

  /** Reader and writer are exact inverses: decrypt_model accepts a package and gives m if and only
      if the package is what the writer makes of m under the package's own IV, m fits the model
      buffer with its padding, and m starts with MAIX if it has four bytes at all. */
  lemma PackageBijection(c: Crypto, pkg: seq<byte>, m: seq<byte>)
    requires IsBlockCipher(c.cipher)
    ensures Yields(c, pkg, m) <==>
              && Works(c) && |m| < MAX_MODEL_SIZE && (|m| >= 4 ==> m[..4] == MAIX)
              && |pkg| >= HEADER_SIZE && CreatePackage(c.cipher, c.key, pkg[12..28], m) == Some(pkg)
  {
    hide Yields, HasFields, CreatePackage;
    PackageHasFields(c, pkg, m);
    if Yields(c, pkg, m) { ReaderThenWriter(c, pkg, m); }
    if Works(c) && HasFields(c, pkg, m) && |m| < MAX_MODEL_SIZE && (|m| >= 4 ==> m[..4] == MAIX) {
      WriterThenReader(c, pkg, m);
    }
  }

  /** The round trip for a model as the service takes it: at most 4063 bytes is exactly what makes
      the package fit the 4096 bytes the service allows. */
  lemma PackageRoundTrip(c: Crypto, iv: seq<byte>, m: seq<byte>)
    requires IsBlockCipher(c.cipher) && Works(c) && |iv| == 16 && |m| < MAX_MODEL_SIZE && (|m| >= 4 ==> m[..4] == MAIX)
    ensures var pkg := CreatePackage(c.cipher, c.key, iv, m);
            && pkg.Some? && Yields(c, pkg.value, m)
            && (|pkg.value| <= MAX_MODEL_SIZE <==> |m| <= 4063)
  {
    hide Yields, CbcEncrypt;
    var pkg := CreatePackage(c.cipher, c.key, iv, m).value;
    PackageFields(TMAX, Le32Bytes(VERSION), Le32Bytes(|m|), iv, CbcEncrypt(c.cipher, c.key, iv, Pad(m)), pkg);
    PackageBijection(c, pkg, m);
  }
}
