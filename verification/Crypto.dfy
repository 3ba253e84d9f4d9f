/** Block padding and the framing of the AES-CBC-then-HMAC and X25519 ciphers. Ciphers, MAC, key agreement and
    key derivation are arbitrary functions; the laws needed of them are stated where they are used. */
module Crypto {
  import opened Division

  type Byte = i: int | 0 <= i < 256

  type Bytes = seq<Byte>

  datatype Error =
    EmptyData | BadPadding | BadPaddingByte | KeyTooShort | MacMismatch | NotWholeBlocks | TooShort | Sealed

  datatype Result<+T> = Ok(value: T) | Err(error: Error)

  function Repeat(b: Byte, n: nat): Bytes {
    seq(n, _ => b)
  }

  // ---- PKCS#7 padding ----

  function PaddingOf(length: nat, blockSize: nat): nat
    requires blockSize > 0
  {
    blockSize - length % blockSize
  }

  /** The data and as many bytes as are missing, each holding that number, cut to a byte. */
  function Padded(data: Bytes, blockSize: nat): Bytes
    requires blockSize > 0
  {
    var padding := PaddingOf(|data|, blockSize);
    data + Repeat(padding % 256, padding)
  }

  method PadPKCS7(data: Bytes, blockSize: nat) returns (r: Bytes)
    requires blockSize > 0
    ensures r == Padded(data, blockSize)
    ensures |r| % blockSize == 0 && |data| < |r| <= |data| + blockSize
  {
    var padding := blockSize - |data| % blockSize;
    var p := new Byte[padding];
    for i := 0 to padding
      invariant forall k | 0 <= k < i :: p[k] == padding % 256
    {
      p[i] := padding % 256;
    }
    assert p[..] == Repeat(padding % 256, padding);
    r := data + p[..];
    WholeBlocks(|data|, blockSize);
  }

  lemma WholeBlocks(n: nat, b: nat)
    requires b > 0
    ensures (n + PaddingOf(n, b)) % b == 0
  {
    assert n + PaddingOf(n, b) == (n / b + 1) * b;
    UniqueQuotient(n + PaddingOf(n, b), b, n / b + 1, 0);
  }

  /** What padding is accepted: the last byte says how many bytes to drop, and they all hold that number. A last
      byte of zero drops nothing. */
  predicate EndsInPadding(data: Bytes) {
    && data != []
    && var padding := data[|data| - 1];
       padding <= |data| && forall i | |data| - padding <= i < |data| :: data[i] == padding
  }

  function Unpadded(data: Bytes): Bytes
    requires EndsInPadding(data)
  {
    data[..|data| - data[|data| - 1]]
  }

  method UnpadPKCS7(data: Bytes) returns (r: Result<Bytes>)
    ensures r.Ok? <==> EndsInPadding(data)
    ensures r.Ok? ==> r.value == Unpadded(data)
    ensures r.Err? ==>
      r.error == if data == [] then EmptyData else if data[|data| - 1] > |data| then BadPadding else BadPaddingByte
  {
    if |data| == 0 {
      return Err(EmptyData);
    }
    var padding := data[|data| - 1];
    if padding > |data| || padding > 256 {
      return Err(BadPadding);
    }
    for i := |data| - padding to |data|
      invariant forall k | |data| - padding <= k < i :: data[k] == padding
    {
      if data[i] != padding {
        return Err(BadPaddingByte);
      }
    }
    return Ok(data[..|data| - padding]);
  }

  /** Unpadding accepts exactly what is some data followed by n bytes n, for a byte n, and gives that data. */
  lemma UnpaddingMeans(x: Bytes, d: Bytes)
    ensures EndsInPadding(x) && Unpadded(x) == d <==>
      exists n: Byte :: x != [] && x[|x| - 1] == n && x == d + Repeat(n, n)
  {
    if EndsInPadding(x) && Unpadded(x) == d {
      var n := x[|x| - 1];
      assert x == d + Repeat(n, n);
    }
  }

  /** Padding what was unpadded gives the text back exactly if its last byte lies between 1 and a block; the other
      accepted texts are none that padding makes. */
  lemma {:induction false} PadUndoesUnpadExactly(x: Bytes, blockSize: nat)
    requires blockSize > 0 && EndsInPadding(x) && |x| % blockSize == 0
    ensures x == Padded(Unpadded(x), blockSize) <==> 1 <= x[|x| - 1] <= blockSize
  {
    var n := x[|x| - 1];
    var d := Unpadded(x);
    if 1 <= n <= blockSize {
      PaddingOfShorter(|x|, n, blockSize);
      assert x == d + Repeat(n, n);
    } else {
      assert |Padded(d, blockSize)| == |d| + PaddingOf(|d|, blockSize);
    }
  }

  lemma PaddingOfShorter(length: nat, n: nat, b: nat)
    requires b > 0 && length % b == 0 && 1 <= n <= b && n <= length
    ensures PaddingOf(length - n, b) == n
  {
    var q := length / b;
    assert length - n == (q - 1) * b + (b - n);
    if n == b {
      UniqueQuotient(length - n, b, q - 1, 0);
    } else {
      UniqueQuotient(length - n, b, q - 1, b - n);
    }
  }

  /** Unpadding what was padded gives the data back. */
  predicate Survives(data: Bytes, blockSize: nat)
    requires blockSize > 0
  {
    EndsInPadding(Padded(data, blockSize)) && Unpadded(Padded(data, blockSize)) == data
  }

  /** Padding is undone exactly if the number of padding bytes fits in a byte. */
  lemma {:induction false} UnpadUndoesPadExactly(data: Bytes, blockSize: nat)
    requires blockSize > 0
    ensures Survives(data, blockSize) <==> PaddingOf(|data|, blockSize) <= 255
  {
    var padding := PaddingOf(|data|, blockSize);
    var x := Padded(data, blockSize);
    assert x[|x| - 1] == padding % 256;
    if padding <= 255 {
      assert x[..|data|] == data;
    }
  }

  /** So it is undone for all data exactly for block sizes up to 255. */
  lemma BlockSizesThatWork(blockSize: nat)
    requires blockSize > 0
    ensures (forall data: Bytes :: Survives(data, blockSize)) <==> blockSize <= 255
  {
    hide Survives;
    forall data: Bytes ensures Survives(data, blockSize) <==> PaddingOf(|data|, blockSize) <= 255 {
      UnpadUndoesPadExactly(data, blockSize);
    }
    var nothing: Bytes := [];
    assert Survives(nothing, blockSize) <==> blockSize <= 255;
  }

  // ---- cipher block chaining ----

  const BLOCK: nat := 16

  type Block = b: Bytes | |b| == 16 witness seq(16, _ => 0)

  /** Exclusive or of the low k bits. */
  function XorBits(a: nat, b: nat, k: nat): (c: nat)
    ensures c < Power(k)
  {
    if k == 0 then 0 else (a + b) % 2 + 2 * XorBits(a / 2, b / 2, k - 1)
  }

  function Power(k: nat): nat {
    if k == 0 then 1 else 2 * Power(k - 1)
  }

  lemma HalfOf(bit: nat, rest: nat)
    requires bit < 2
    ensures (bit + 2 * rest) / 2 == rest && (bit + 2 * rest) % 2 == bit
  {
  }

  lemma BitTwice(a: nat, b: nat, rest: nat)
    ensures ((a + b) % 2 + 2 * rest + b) % 2 == a % 2
  {
  }

  lemma {:induction false} XorTwice(a: nat, b: nat, k: nat)
    requires a < Power(k)
    ensures XorBits(XorBits(a, b, k), b, k) == a
  {
    if k > 0 {
      var rest := XorBits(a / 2, b / 2, k - 1);
      XorTwice(a / 2, b / 2, k - 1);
      HalfOf((a + b) % 2, rest);
      BitTwice(a, b, rest);
      var c := (a + b) % 2 + 2 * rest;
      assert XorBits(a, b, k) == c && XorBits(c, b, k) == a % 2 + 2 * XorBits(rest, b / 2, k - 1);
    }
  }

  /** The bits of a number, the lowest first. */
  function Bits(a: nat, k: nat): seq<bool> {
    if k == 0 then [] else [a % 2 == 1] + Bits(a / 2, k - 1)
  }

  /** Bit by bit: a bit of the result is set exactly if it is set in one of the two numbers and not in both. */
  lemma {:induction false} XorBit(a: nat, b: nat, k: nat, i: nat)
    requires i < k
    ensures |Bits(a, k)| == |Bits(b, k)| == |Bits(XorBits(a, b, k), k)| == k
    ensures Bits(XorBits(a, b, k), k)[i] == (Bits(a, k)[i] != Bits(b, k)[i])
  {
    BitsCount(a, k);
    BitsCount(b, k);
    BitsCount(XorBits(a, b, k), k);
    var rest := XorBits(a / 2, b / 2, k - 1);
    FirstBits(a, b, rest);
    if i > 0 {
      XorBit(a / 2, b / 2, k - 1, i - 1);
    }
  }

  lemma {:induction false} BitsCount(a: nat, k: nat)
    ensures |Bits(a, k)| == k
  {
    if k > 0 {
      BitsCount(a / 2, k - 1);
    }
  }

  lemma FirstBits(a: nat, b: nat, rest: nat)
    ensures ((a + b) % 2 + 2 * rest) / 2 == rest
    ensures ((a + b) % 2 + 2 * rest) % 2 == 1 <==> (a % 2 == 1) != (b % 2 == 1)
  {
    HalfOf((a + b) % 2, rest);
  }

  lemma PowerOfEight()
    ensures Power(8) == 256
  {
    assert Power(4) == 16;
    assert Power(8) == 2 * (2 * (2 * (2 * Power(4))));
  }

  function XorByte(a: Byte, b: Byte): Byte {
    PowerOfEight();
    XorBits(a, b, 8)
  }

  function Xor(a: Block, b: Block): Block {
    seq(16, i requires 0 <= i < 16 => XorByte(a[i], b[i]))
  }

  lemma XorUndoesXor(a: Block, b: Block)
    ensures Xor(Xor(a, b), b) == a
  {
    forall i | 0 <= i < 16 ensures Xor(Xor(a, b), b)[i] == a[i] {
      PowerOfEight();
      XorTwice(a[i], b[i], 8);
    }
  }

  /** CBC mode of section 6.2 of NIST SP 800-38A: each block is masked with the ciphertext before it. */
  function EncryptBlocks(encrypt: Block -> Block, previous: Block, data: Bytes): (c: Bytes)
    requires |data| % 16 == 0
    ensures |c| == |data|
    decreases |data|
  {
    if data == [] then []
    else
      var block := encrypt(Xor(data[..16], previous));
      block + EncryptBlocks(encrypt, block, data[16..])
  }

  function DecryptBlocks(decrypt: Block -> Block, previous: Block, data: Bytes): (p: Bytes)
    requires |data| % 16 == 0
    ensures |p| == |data|
    decreases |data|
  {
    if data == [] then []
    else Xor(decrypt(data[..16]), previous) + DecryptBlocks(decrypt, data[..16], data[16..])
  }

  lemma {:induction false} BlocksDecryptBack(
    encrypt: Block -> Block, decrypt: Block -> Block, previous: Block, data: Bytes)
    requires |data| % 16 == 0 && forall x: Block :: decrypt(encrypt(x)) == x
    ensures DecryptBlocks(decrypt, previous, EncryptBlocks(encrypt, previous, data)) == data
    decreases |data|
  {
    if data != [] {
      var first: Block := data[..16];
      var block: Block := encrypt(Xor(first, previous));
      var whole: Bytes := block;
      var rest := EncryptBlocks(encrypt, block, data[16..]);
      assert (whole + rest)[..16] == whole && (whole + rest)[16..] == rest;
      XorUndoesXor(first, previous);
      BlocksDecryptBack(encrypt, decrypt, block, data[16..]);
      assert first + data[16..] == data;
    }
  }

  lemma {:induction false} BlocksEncryptBack(
    encrypt: Block -> Block, decrypt: Block -> Block, previous: Block, data: Bytes)
    requires |data| % 16 == 0 && forall x: Block :: encrypt(decrypt(x)) == x
    ensures EncryptBlocks(encrypt, previous, DecryptBlocks(decrypt, previous, data)) == data
    decreases |data|
  {
    if data != [] {
      var first: Block := data[..16];
      var block: Block := Xor(decrypt(first), previous);
      var whole: Bytes := block;
      var rest := DecryptBlocks(decrypt, first, data[16..]);
      assert (whole + rest)[..16] == whole && (whole + rest)[16..] == rest;
      XorUndoesXor(decrypt(first), previous);
      BlocksEncryptBack(encrypt, decrypt, first, data[16..]);
      assert first + data[16..] == data;
    }
  }

  // ---- encrypt, then authenticate ----

  /** The primitives: a block cipher and its inverse under a key, and a MAC under a key. */
  datatype Primitives = Primitives(
    encrypt: Bytes -> Block -> Block, decrypt: Bytes -> Block -> Block, mac: (Bytes, Bytes) -> Bytes)
  {
    ghost predicate Inverse() {
      forall key: Bytes, x: Block :: decrypt(key)(encrypt(key)(x)) == x
    }

    ghost predicate Permutation() {
      Inverse() && forall key: Bytes, x: Block :: encrypt(key)(decrypt(key)(x)) == x
    }
  }

  /** A cipher that only masks each block. */
  function Masking(mask: Block, mac: (Bytes, Bytes) -> Bytes): Primitives {
    Primitives(_ => x => Xor(x, mask), _ => x => Xor(x, mask), mac)
  }

  /** So the laws can be met. */
  lemma MaskingIsPermutation(mask: Block, mac: (Bytes, Bytes) -> Bytes)
    ensures Masking(mask, mac).Permutation()
  {
    hide Xor;
    forall x: Block ensures Xor(Xor(x, mask), mask) == x {
      XorUndoesXor(x, mask);
    }
  }

  datatype Sealing = Sealing(ciphertext: Bytes, nonce: Block, tag: Bytes)

  /** The sealing of a padded text: its CBC text and the MAC of nonce, text and associated data. */
  function SealedText(prim: Primitives, key: Bytes, padded: Bytes, aad: Bytes, nonce: Block): Sealing
    requires |key| >= 64 && |padded| % 16 == 0
  {
    var ciphertext := EncryptBlocks(prim.encrypt(key[..32]), nonce, padded);
    Sealing(ciphertext, nonce, prim.mac(key[32..64], nonce + ciphertext + aad))
  }

  method Encrypt(prim: Primitives, key: Bytes, plaintext: Bytes, aad: Bytes, nonce: Block) returns (r: Result<Sealing>)
    ensures |key| < 64 ==> r == Err(KeyTooShort)
    ensures |key| >= 64 ==>
      |Padded(plaintext, BLOCK)| % 16 == 0 && r == Ok(SealedText(prim, key, Padded(plaintext, BLOCK), aad, nonce))
    ensures prim.Inverse() && r.Ok? ==> Opened(prim, key, r.value, aad) == Ok(plaintext)
  {
    if |key| < 64 {
      return Err(KeyTooShort);
    }
    var aesKey, macKey := key[..32], key[32..64];
    var padded := PadPKCS7(plaintext, BLOCK);
    var ciphertext := EncryptBlocks(prim.encrypt(aesKey), nonce, padded);
    var input: Bytes := nonce;
    input := input + ciphertext;
    input := input + aad;
    r := Ok(Sealing(ciphertext, nonce, prim.mac(macKey, input)));
    if prim.Inverse() {
      DecryptUndoesEncrypt(prim, key, plaintext, aad, nonce);
    }
  }

  /** Text is accepted exactly with the right MAC over whole blocks whose plaintext ends in padding. */
  method Decrypt(prim: Primitives, key: Bytes, sealed: Sealing, aad: Bytes) returns (r: Result<Bytes>)
    ensures r == Opened(prim, key, sealed, aad)
    ensures r.Ok? <==>
      && |key| >= 64 && sealed.tag == prim.mac(key[32..64], sealed.nonce + sealed.ciphertext + aad)
      && |sealed.ciphertext| % 16 == 0
      && EndsInPadding(DecryptBlocks(prim.decrypt(key[..32]), sealed.nonce, sealed.ciphertext))
  {
    if |key| < 64 {
      return Err(KeyTooShort);
    }
    var aesKey, macKey := key[..32], key[32..64];
    var input: Bytes := sealed.nonce;
    input := input + sealed.ciphertext;
    input := input + aad;
    if sealed.tag != prim.mac(macKey, input) {
      return Err(MacMismatch);
    }
    if |sealed.ciphertext| == 0 || |sealed.ciphertext| % 16 != 0 {
      return Err(NotWholeBlocks);
    }
    var plaintext := DecryptBlocks(prim.decrypt(aesKey), sealed.nonce, sealed.ciphertext);
    r := UnpadPKCS7(plaintext);
  }

  /** What opening a sealed text gives: the checks in their order, then the unpadded text. */
  function Opened(prim: Primitives, key: Bytes, sealed: Sealing, aad: Bytes): Result<Bytes> {
    if |key| < 64 then Err(KeyTooShort)
    else if sealed.tag != prim.mac(key[32..64], sealed.nonce + sealed.ciphertext + aad) then Err(MacMismatch)
    else if |sealed.ciphertext| == 0 || |sealed.ciphertext| % 16 != 0 then Err(NotWholeBlocks)
    else
      var x := DecryptBlocks(prim.decrypt(key[..32]), sealed.nonce, sealed.ciphertext);
      if EndsInPadding(x) then Ok(Unpadded(x))
      else Err(if x[|x| - 1] > |x| then BadPadding else BadPaddingByte)
  }

  /** Opening what was sealed gives the text back, for every text, key, nonce and MAC. */
  lemma DecryptUndoesEncrypt(prim: Primitives, key: Bytes, plaintext: Bytes, aad: Bytes, nonce: Block)
    requires prim.Inverse() && |key| >= 64
    ensures |Padded(plaintext, BLOCK)| % 16 == 0
    ensures Opened(prim, key, SealedText(prim, key, Padded(plaintext, BLOCK), aad, nonce), aad) == Ok(plaintext)
  {
    WholeBlocks(|plaintext|, BLOCK);
    BlocksDecryptBack(prim.encrypt(key[..32]), prim.decrypt(key[..32]), nonce, Padded(plaintext, BLOCK));
    UnpadUndoesPadExactly(plaintext, BLOCK);
  }

  /** Opening gives `d` exactly for the sealings of `d` followed by n bytes n, in whole blocks: so for a 16-byte
      nonce and given associated data nothing else is ever accepted. For other associated data see
      BoundaryIsNotAuthenticated. */
  lemma OpensExactlySealings(prim: Primitives, key: Bytes, sealed: Sealing, aad: Bytes, d: Bytes)
    requires prim.Permutation() && |key| >= 64
    ensures Opened(prim, key, sealed, aad) == Ok(d) <==>
      exists x :: |x| % 16 == 0 && EndsInPadding(x) && Unpadded(x) == d
                  && sealed == SealedText(prim, key, x, aad, sealed.nonce)
  {
    hide EndsInPadding;
    var encrypt, decrypt := prim.encrypt(key[..32]), prim.decrypt(key[..32]);
    if Opened(prim, key, sealed, aad) == Ok(d) {
      var x := DecryptBlocks(decrypt, sealed.nonce, sealed.ciphertext);
      BlocksEncryptBack(encrypt, decrypt, sealed.nonce, sealed.ciphertext);
      assert sealed == SealedText(prim, key, x, aad, sealed.nonce);
    }
    if x :| |x| % 16 == 0 && EndsInPadding(x) && Unpadded(x) == d
            && sealed == SealedText(prim, key, x, aad, sealed.nonce) {
      BlocksDecryptBack(encrypt, decrypt, sealed.nonce, x);
      NotEmpty(x);
    }
  }

  lemma NotEmpty(x: Bytes)
    requires EndsInPadding(x)
    ensures x != []
  {
  }

  /** The MAC is taken over nonce, ciphertext and associated data without a mark between them: whole blocks in front of
      the associated data can just as well end the ciphertext. That text is then accepted exactly if what it decrypts
      to ends in padding. */
  lemma BoundaryIsNotAuthenticated(prim: Primitives, key: Bytes, sealed: Sealing, moved: Bytes, aad: Bytes)
    requires |moved| % 16 == 0 && Opened(prim, key, sealed, moved + aad).Ok?
    ensures
      var ciphertext := sealed.ciphertext + moved;
      && |key| >= 64 && |ciphertext| % 16 == 0
      && (Opened(prim, key, sealed.(ciphertext := ciphertext), aad).Ok? <==>
            EndsInPadding(DecryptBlocks(prim.decrypt(key[..32]), sealed.nonce, ciphertext)))
  {
    hide EndsInPadding;
    var nonce: Bytes := sealed.nonce;
    assert nonce + (sealed.ciphertext + moved) + aad == nonce + sealed.ciphertext + (moved + aad);
  }

  // ---- the X25519 hybrid: framing of the key material ----

  /** Key agreement, key derivation and an authenticated cipher whose output ends in a 16-byte tag. */
  datatype Hybrid = Hybrid(
    agree: (Bytes, Bytes) -> Bytes, basepoint: Bytes, derive: (Bytes, Bytes) -> Bytes,
    seal: (Bytes, Bytes, Bytes, Bytes) -> Bytes, open: (Bytes, Bytes, Bytes, Bytes) -> Result<Bytes>)
  {
    /** Both sides agree, public keys are 32 bytes, and opening undoes sealing. */
    ghost predicate Lawful() {
      && (forall a: Bytes, b: Bytes :: agree(a, agree(b, basepoint)) == agree(b, agree(a, basepoint)))
      && (forall a: Bytes :: |agree(a, basepoint)| == 32)
      && (forall k: Bytes, n: Bytes, p: Bytes, d: Bytes ::
            |seal(k, n, p, d)| >= 16 && open(k, n, seal(k, n, p, d), d) == Ok(p))
    }
  }

  /** A hybrid that only appends a tag. */
  function Tagging(derive: (Bytes, Bytes) -> Bytes): Hybrid {
    Hybrid(
      (a, b) => Repeat(0, 32), [], derive,
      (k, n, p, d) => p + Repeat(0, 16), (k, n, c, d) => if |c| < 16 then Err(TooShort) else Ok(c[..|c| - 16]))
  }

  /** These laws can be met too. */
  lemma TaggingIsLawful(derive: (Bytes, Bytes) -> Bytes)
    ensures Tagging(derive).Lawful()
  {
    forall p: Bytes ensures (p + Repeat(0, 16))[..|p + Repeat(0, 16)| - 16] == p {
    }
  }

  datatype HybridText = HybridText(ciphertext: Bytes, tag: Bytes)

  function SealHybrid(
    h: Hybrid, publicKey: Bytes, ephemeral: Bytes, salt: Block, nonce: Bytes, plaintext: Bytes, aad: Bytes)
    : Result<HybridText>
  {
    var out := h.seal(h.derive(h.agree(ephemeral, publicKey), salt), nonce, plaintext, aad);
    if |out| < 16 then Err(TooShort)
    else Ok(HybridText(h.agree(ephemeral, h.basepoint) + salt + out[..|out| - 16], out[|out| - 16..]))
  }

  function OpenHybrid(h: Hybrid, privateKey: Bytes, text: HybridText, nonce: Bytes, aad: Bytes): Result<Bytes> {
    if |text.ciphertext| < 48 then Err(TooShort)
    else
      var key := h.derive(h.agree(privateKey, text.ciphertext[..32]), text.ciphertext[32..48]);
      h.open(key, nonce, text.ciphertext[48..] + text.tag, aad)
  }

  /** The receiver cuts the text where the sender joined it, and derives the sender's key. */
  lemma OpenUndoesSeal(
    h: Hybrid, privateKey: Bytes, ephemeral: Bytes, salt: Block, nonce: Bytes, plaintext: Bytes, aad: Bytes)
    requires h.Lawful()
    ensures var r := SealHybrid(h, h.agree(privateKey, h.basepoint), ephemeral, salt, nonce, plaintext, aad);
      r.Ok? && OpenHybrid(h, privateKey, r.value, nonce, aad) == Ok(plaintext)
  {
    var shared := h.agree(ephemeral, h.agree(privateKey, h.basepoint));
    var out := h.seal(h.derive(shared, salt), nonce, plaintext, aad);
    var ephPub := h.agree(ephemeral, h.basepoint);
    var body, tag := out[..|out| - 16], out[|out| - 16..];
    var text := ephPub + salt + body;
    assert text[..32] == ephPub && text[32..48] == salt && text[48..] == body && body + tag == out;
    assert h.agree(privateKey, ephPub) == shared;
  }
}
