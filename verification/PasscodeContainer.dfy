/** The passcode container of Crypto: a 64-byte password and a secret are framed,
    padded to whole cipher blocks, enciphered in place and stored as text.
    Key derivation, cipher and text form are foreign code and enter as functions
    with their inverse laws. */
module PasscodeContainer {
  import opened BitStrings
  import opened Wrappers

  type Bytes = seq<Byte>

  /** kdf(passcode, salt); encipher and decipher take key, iv and data. */
  datatype Primitives = Primitives(
    kdf: (string, Bytes) -> Bytes,
    encipher: (Bytes, Bytes, Bytes) -> Bytes,
    decipher: (Bytes, Bytes, Bytes) -> Bytes,
    toText: Bytes -> string,
    fromText: string -> Bytes)

  ghost predicate Lawful(p: Primitives) {
    && (forall passcode, salt :: |p.kdf(passcode, salt)| == 64)
    && (forall key, iv, x :: |p.encipher(key, iv, x)| == |x|)
    && (forall key, iv, x :: |p.decipher(key, iv, x)| == |x|)
    && (forall key, iv, x :: |x| % 16 == 0 ==> p.decipher(key, iv, p.encipher(key, iv, x)) == x)
    && (forall x :: p.fromText(p.toText(x)) == x)
  }

  function Padding(password: Bytes, secret: Bytes): (n: nat)
    ensures n < 16 && (3 + |password| + |secret| + n) % 16 == 0
  {
    var r := (3 + |password| + |secret|) % 16;
    if r == 0 then 0 else 16 - r
  }

  const TAG: Bytes := [111, 107]

  function Frame(password: Bytes, secret: Bytes, noise: Bytes): Bytes
    requires |noise| == 15
  {
    var n := Padding(password, secret);
    [n as Byte] + TAG + password + secret + noise[..n]
  }

  /** noise stands for the random bytes, of which padding many are used. */
  method Encrypt(password: Bytes, secret: Bytes, noise: Bytes) returns (data: array<Byte>)
    requires |noise| == 15
    ensures fresh(data) && data[..] == Frame(password, secret, noise)
    ensures data.Length % 16 == 0 && data.Length - data[0] == 3 + |password| + |secret| && data[0] < 16
    ensures data[1] == 'o' as int && data[2] == 'k' as int
    ensures data[3..] == password + secret + noise[..data[0]]
  {
    hide Written;
    var len := 1 + 2 + |password| + |secret|;
    var padding := len % 16;
    if padding != 0 {
      padding := 16 - padding;
      len := len + padding;
    }
    data := new Byte[len](i => 0);
    data[0] := padding;
    data[1] := 111;
    data[2] := 107;
    ghost var head := [padding as Byte] + TAG;
    assert data[..3] == head;
    Appended(data[..], head, password);
    CopyTo(password, data, 3);
    Appended(data[..], head + password, secret);
    CopyTo(secret, data, 3 + |password|);
    Appended(data[..], head + password + secret, noise[..padding]);
    if padding > 0 {
      CopyTo(noise[..padding], data, 3 + |password| + |secret|);
    }
    assert |head + password + secret + noise[..padding]| == data.Length;
    FrameLayout(data[..], head, password, secret, noise[..padding]);
  }

  lemma FrameLayout(x: Bytes, head: Bytes, password: Bytes, secret: Bytes, filler: Bytes)
    requires |head| == 3 && x == head + password + secret + filler
    ensures x[..3] == head && x[3..] == password + secret + filler
    ensures x[0] == head[0] && x[1] == head[1] && x[2] == head[2]
  {
    assert x == head + (password + secret + filler);
  }

  function Written(x: Bytes, at: nat, src: Bytes): (y: Bytes)
    requires at + |src| <= |x|
    ensures |y| == |x|
  {
    x[..at] + src + x[at + |src|..]
  }

  /** Writing behind a known beginning extends that beginning. */
  lemma Appended(x: Bytes, front: Bytes, src: Bytes)
    requires front <= x && |front| + |src| <= |x|
    ensures front + src <= Written(x, |front|, src)
    ensures src == [] ==> Written(x, |front|, src) == x
  {
    assert x[..|front|] == front;
  }

  /** Array.Copy of a whole source. */
  method CopyTo(src: Bytes, dst: array<Byte>, at: nat)
    requires at + |src| <= dst.Length
    modifies dst
    ensures dst[..] == Written(old(dst[..]), at, src)
  {
    for i := 0 to |src|
      invariant forall k :: 0 <= k < dst.Length ==> dst[k] == if at <= k < at + i then src[k - at] else old(dst[k])
    {
      dst[at + i] := src[i];
    }
  }

  /** Enciphers the given array in place, under a fresh salt. */
  method SetPasscode(p: Primitives, passcode: string, data: array<Byte>, salt: Bytes) returns (text: string)
    requires Lawful(p)
    modifies data
    ensures var hash := p.kdf(passcode, salt);
            data[..] == p.encipher(hash[..32], hash[32..64], old(data[..]))
    ensures text == p.toText(data[..])
  {
    var hash := p.kdf(passcode, salt);
    var key, iv := hash[..32], hash[32..64];
    var enciphered := p.encipher(key, iv, data[..]);
    CopyTo(enciphered, data, 0);
    assert data[..] == enciphered;
    text := p.toText(data[..]);
  }

  /** Failure stands for a thrown index or size exception, None for a passcode
      whose result lacks the tag. */
  function Unframe(x: Bytes): Result<Option<(Bytes, Bytes)>> {
    if |x| < 2 then Failure("index out of range")
    else if x[1] != 111 then Success(None)
    else if |x| < 3 then Failure("index out of range")
    else if x[2] != 107 then Success(None)
    else if |x| - 64 - x[0] - 3 < 0 then Failure("negative size")
    else Success(Some((x[3..67], x[67..|x| - x[0]])))
  }

  /** What the deciphered bytes x give: null exactly without the two characters of
      the tag, an exception exactly when something is out of range, and otherwise
      a pair that, with a 64-byte password, fills what lies between the tag and
      the padding counted by the first byte. */
  ghost predicate Unframes(x: Bytes, r: Result<Option<(Bytes, Bytes)>>) {
    && (|x| >= 3 ==> (r == Success(None) <==> x[1] != 'o' as int || x[2] != 'k' as int))
    && (r.Failure? <==> |x| < 2 || (x[1] == 'o' as int && (|x| == 2 || (x[2] == 'k' as int && |x| - x[0] < 67))))
    && (r.Success? && r.value.Some? ==>
          var (password, secret) := r.value.value;
          |password| == 64 && |x| - x[0] >= 67 && x == x[..3] + password + secret + x[|x| - x[0]..])
  }

  method Decrypt(p: Primitives, passcode: string, encryption: string, salt: Bytes)
    returns (r: Result<Option<(Bytes, Bytes)>>)
    requires Lawful(p)
    ensures var hash := p.kdf(passcode, salt);
            var x := p.decipher(hash[..32], hash[32..64], p.fromText(encryption));
            r == Unframe(x) && Unframes(x, r)
  {
    var hash := p.kdf(passcode, salt);
    var decrypted := p.decipher(hash[..32], hash[32..64], p.fromText(encryption));
    if |decrypted| < 2 || (decrypted[1] == 111 && |decrypted| < 3) {
      return Failure("index out of range");
    }
    if decrypted[1] == 111 && decrypted[2] == 107 {
      var padding := decrypted[0];
      if |decrypted| - 64 - padding - 3 < 0 {
        return Failure("negative size");
      }
      var size := |decrypted| - 64 - padding - 3;
      return Success(Some((decrypted[3..3 + 64], decrypted[3 + 64..3 + 64 + size])));
    }
    return Success(None);
  }

  /** The framed pair comes back exactly when the password has 64 bytes; the
      container does not record any other length. */
  lemma FrameRoundTrip(password: Bytes, secret: Bytes, noise: Bytes)
    requires |noise| == 15
    ensures |Frame(password, secret, noise)| % 16 == 0
    ensures Unframe(Frame(password, secret, noise)) == Success(Some((password, secret))) <==> |password| == 64
  {
    var x := Frame(password, secret, noise);
    var n := Padding(password, secret);
    assert x[0] == n && x[1] == 111 && x[2] == 107;
    if |password| == 64 {
      assert x[3..67] == password;
      assert x[67..|x| - n] == secret;
    }
  }

  /** Encrypt, SetPasscode and Decrypt with one passcode and salt give the pair
      back, for every secret and every 64-byte password. */
  method RoundTrip(p: Primitives, passcode: string, salt: Bytes, password: Bytes, secret: Bytes, noise: Bytes)
    returns (r: Result<Option<(Bytes, Bytes)>>)
    requires Lawful(p) && |noise| == 15
    ensures r == Success(Some((password, secret))) <==> |password| == 64
  {
    var data := Encrypt(password, secret, noise);
    ghost var framed := data[..];
    var text := SetPasscode(p, passcode, data, salt);
    r := Decrypt(p, passcode, text, salt);
    FrameRoundTrip(password, secret, noise);
    assert |framed| % 16 == 0;
  }
}
