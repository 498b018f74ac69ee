/** The threshold encryption engine `encryption::TE`.

    Group model. G1 is cyclic of prime order R; an element is written as its
    discrete logarithm with respect to the engine's generator g, so g is 1
    and the identity is 0. An integer stands for the element it is congruent
    to modulo R: every operation, check and hash reduces its arguments, and
    the `...OnElements` lemmas show that the results do not depend on the
    representative. The scalar multiple k*P is k*p mod
    R, the sum P+Q is p+q mod R, and the pairing e(a*g, b*g) = e(g, g)^(a*b)
    is represented by its exponent a*b mod R. Every check the engine makes
    compares such values. */
module ThresholdEncryption {
  import opened Zr
  import opened Results
  import opened Masking
  import Lagrange

  /** `TE(t, n)` together with the order R of its pairing groups. */
  datatype Engine = Engine(t: nat, n: nat, R: int) {
    predicate Valid() {
      R > 1
    }
  }

  /** The engine's generator g. */
  const Generator: int := 1

  /** `element_mul`: the multiple k*P of a G1 element by a Zr scalar. */
  function Scale(e: Engine, k: int, P: int): int
    requires e.Valid()
  {
    (k * P) % e.R
  }

  /** `element_add` in G1. */
  function Add(e: Engine, P: int, Q: int): int
    requires e.Valid()
  {
    (P + Q) % e.R
  }

  /** `pairing_apply`: e(P, Q) in GT. */
  function Pair(e: Engine, P: int, Q: int): int
    requires e.Valid()
  {
    (P * Q) % e.R
  }

  /** `element_is0` on G1. */
  predicate IsIdentity(e: Engine, P: int)
    requires e.Valid()
  {
    P % e.R == 0
  }

  /** The public key that belongs to a secret key s: s*g. */
  function PublicKey(e: Engine, s: int): int
    requires e.Valid()
  {
    Scale(e, s, Generator)
  }

  /** e(P, g) is the exponent of P itself. */
  lemma PairWithGenerator(e: Engine, P: int)
    requires e.Valid()
    ensures Pair(e, P, Generator) == P % e.R
  {
  }

  /** e(U, s*g) == e(s*U, g): the pairing moves a scalar across. */
  lemma PairWithPublicKey(e: Engine, U: int, s: int)
    requires e.Valid()
    ensures Pair(e, U, PublicKey(e, s)) == Scale(e, s, U)
  {
    assert PublicKey(e, s) == s % e.R;
    ModMulLeft(s, U, e.R);
    assert (s % e.R) * U == U * (s % e.R);
  }

  /** r*(s*g) == s*(r*g). */
  lemma ScaleSwap(e: Engine, r: int, s: int)
    requires e.Valid()
    ensures Scale(e, r, PublicKey(e, s)) == Scale(e, s, Scale(e, r, Generator))
  {
    var R := e.R;
    assert PublicKey(e, s) == s % R;
    assert Scale(e, r, Generator) == r % R;
    ModMulLeft(s, r, R);
    ModMulLeft(r, s, R);
    assert (s % R) * r == r * (s % R);
    assert r * s == s * r;
    assert (r * (s % R)) % R == (r * s) % R;
    assert (s * (r % R)) % R == (s * r) % R by {
      ModMulLeft(r, s, R);
      assert (r % R) * s == s * (r % R);
    }
  }

  /** The capabilities the hash adapters are built from: the injected
      `hash_func`, the decimal text of an element (`element_to_mpz`,
      `mpz_get_str` base 10) and the element read back from hexadecimal text
      (`mpz_set_str` base 16, `element_set_mpz`). A digest is hexadecimal
      text of a fixed length (64 characters for SHA-256), and decimal text is
      digits, so neither has a NUL byte: the `char*` to `std::string`
      conversions on the way to `hash_func` lose nothing. */
  datatype Oracle = Oracle(
    hashFunc: Bytes -> Bytes,
    toDecimal: int -> Bytes,
    toElement: Bytes -> int,
    digestLen: nat)
  {
    ghost predicate Valid() {
      (forall s :: |hashFunc(s)| == digestLen && 0 !in hashFunc(s))
      && (forall x :: 0 !in toDecimal(x))
    }
  }

  datatype Ciphertext = Ciphertext(U: int, V: Bytes, W: int)

  /** A partial decryption with the 1-based index of the party that made it
      (`std::pair<element_wrapper, size_t>`). */
  datatype Share = Share(decrypted: int, index: nat)

  datatype Error =
    | CannotDecrypt
    | ShareCombining
    | Interpolation(cause: Lagrange.Failure)

  // ---------------------------------------------------------------------
  // Hash adapters

  /** `TE::Hash(Y)`: the digest of the decimal text of the element Y, the
      one-time pad. Rebuilding the digest from its `c_str()` loses nothing. */
  function HashPad(e: Engine, o: Oracle, Y: int): (r: Bytes)
    requires e.Valid() && o.Valid()
    ensures r == o.hashFunc(o.toDecimal(Y % e.R))
    ensures |r| == o.digestLen
    ensures 0 !in r
  {
    CStrOfNulFree(o.hashFunc(o.toDecimal(Y % e.R)));
    CStr(o.hashFunc(o.toDecimal(Y % e.R)))
  }

  /** `TE::Hash(ret_val, U, V)`: the G1 element H(U, V) read from the hex text
      hash(decimal(U)) ++ hash(V). V reaches `hash_func` as a string rebuilt from `V.c_str()`. */
  function HashToG1(e: Engine, o: Oracle, U: int, V: Bytes): (r: int)
    requires e.Valid()
    ensures 0 <= r < e.R
  {
    o.toElement(o.hashFunc(o.toDecimal(U % e.R)) + o.hashFunc(CStr(V))) % e.R
  }

  /** The integrity check of `Decrypt`, `Verify` and `CombineShares`:
      e(g, W) == e(U, H(U, V)). It holds exactly when W is the same multiple
      of H(U, V) as U is of g. */
  function IntegrityOk(e: Engine, o: Oracle, c: Ciphertext): (ok: bool)
    requires e.Valid()
    ensures ok <==> c.W % e.R == Scale(e, c.U, HashToG1(e, o, c.U, c.V))
  {
    PairWithGenerator(e, c.W);
    ModMulLeft(c.U, 1, e.R);
    Pair(e, Generator, c.W) == Pair(e, c.U, HashToG1(e, o, c.U, c.V))
  }

  /** The check, like the pairing library, sees elements and not their
      representatives: U and W may be replaced by U mod R and W mod R. */
  lemma IntegrityOnElements(e: Engine, o: Oracle, c: Ciphertext)
    requires e.Valid()
    ensures IntegrityOk(e, o, c) == IntegrityOk(e, o, Ciphertext(c.U % e.R, c.V, c.W % e.R))
  {
    var R := e.R;
    var H := HashToG1(e, o, c.U, c.V);
    ModMod(c.U, R);
    ModMod(c.W, R);
    assert HashToG1(e, o, c.U % R, c.V) == H;
    ModMulLeft(c.U, H, R);
  }

  // ---------------------------------------------------------------------
  // Encrypt

  /** The ciphertext `Encrypt` builds from message, the common public key and
      the nonce r: U = r*g, V = Hash(r*public) XOR message, W = r*H(U, V). */
  function Encryption(e: Engine, o: Oracle, message: Bytes, commonPublic: int, r: int): (c: Ciphertext)
    requires e.Valid() && o.Valid() && |message| == o.digestLen
    ensures |c.V| == |message|
    ensures Xor(HashPad(e, o, Scale(e, r, commonPublic)), c.V) == message
  {
    var U := Scale(e, r, Generator);
    var Y := Scale(e, r, commonPublic);
    var V := Xor(HashPad(e, o, Y), message);
    XorInvolution(HashPad(e, o, Y), message);
    Ciphertext(U, V, Scale(e, r, HashToG1(e, o, U, V)))
  }

  /** `TE::Encrypt` for the nonce r its sampling loop settled on (the loop
      redraws while r is zero). The message must be as long as the digest. */
  method Encrypt(e: Engine, o: Oracle, message: Bytes, commonPublic: int, r: int) returns (c: Ciphertext)
    requires e.Valid() && o.Valid()
    requires r % e.R != 0
    requires |message| == o.digestLen
    ensures c == Encryption(e, o, message, commonPublic, r)
    ensures |c.V| == |message|
    ensures forall i :: 0 <= i < |message| ==>
      c.V[i] == HashPad(e, o, Scale(e, r, commonPublic))[i] ^ message[i]
    ensures IntegrityOk(e, o, c)
  {
    var U := Scale(e, r, Generator);
    var Y := Scale(e, r, commonPublic);
    var pad := HashPad(e, o, Y);
    var V := Mask(pad, message);
    var H := HashToG1(e, o, U, V);
    var W := Scale(e, r, H);
    c := Ciphertext(U, V, W);
    EncryptionPassesCheck(e, o, message, commonPublic, r);
  }

  /** Every ciphertext `Encrypt` builds passes the integrity check:
      e(g, r*H) == e(r*g, H). */
  lemma EncryptionPassesCheck(e: Engine, o: Oracle, message: Bytes, commonPublic: int, r: int)
    requires e.Valid() && o.Valid() && |message| == o.digestLen
    ensures IntegrityOk(e, o, Encryption(e, o, message, commonPublic, r))
  {
    var c := Encryption(e, o, message, commonPublic, r);
    var H := HashToG1(e, o, c.U, c.V);
    ModMulLeft(r * H, 1, e.R);
    ModMulLeft(r, H, e.R);
  }

  /** The check rejects a ciphertext whose W was replaced by a different
      element: e(g, W) determines W. */
  lemma TamperedWRejected(e: Engine, o: Oracle, c: Ciphertext, W': int)
    requires e.Valid() && IntegrityOk(e, o, c)
    requires W' % e.R != c.W % e.R
    ensures !IntegrityOk(e, o, c.(W := W'))
  {
  }

  // ---------------------------------------------------------------------
  // Decrypt

  /** `TE::Decrypt`: the party's partial decryption secretKey*U, or the
      "cannot decrypt data" error when the ciphertext fails its check. */
  function Decrypt(e: Engine, o: Oracle, c: Ciphertext, secretKey: int): (r: Result<int, Error>)
    requires e.Valid()
    ensures r.Err? <==> !IntegrityOk(e, o, c)
    ensures r.Err? ==> r.error == CannotDecrypt
    ensures r.Ok? ==> Pair(e, r.value, Generator) == Pair(e, c.U, PublicKey(e, secretKey))
  {
    if !IntegrityOk(e, o, c) then
      Err(CannotDecrypt)
    else
      var d := Scale(e, secretKey, c.U);
      PairWithGenerator(e, d);
      ModMod(secretKey * c.U, e.R);
      PairWithPublicKey(e, c.U, secretKey);
      Ok(d)
  }

  /** Decrypting a ciphertext from `Encrypt` yields s*r*g: the shared secret
      point r*(s*g) of that encryption. */
  lemma DecryptEncryption(e: Engine, o: Oracle, message: Bytes, s: int, r: int)
    requires e.Valid() && o.Valid() && |message| == o.digestLen
    ensures var c := Encryption(e, o, message, PublicKey(e, s), r);
      Decrypt(e, o, c, s) == Ok(Scale(e, r, PublicKey(e, s)))
  {
    EncryptionPassesCheck(e, o, message, PublicKey(e, s), r);
    ScaleSwap(e, r, s);
  }

  /** `Decrypt` is a function of the elements of the ciphertext, not of
      their representatives. */
  lemma DecryptOnElements(e: Engine, o: Oracle, c: Ciphertext, s: int)
    requires e.Valid()
    ensures Decrypt(e, o, c, s) == Decrypt(e, o, Ciphertext(c.U % e.R, c.V, c.W % e.R), s)
  {
    IntegrityOnElements(e, o, c);
    ModMulLeft(c.U, s, e.R);
    assert (c.U % e.R) * s == s * (c.U % e.R);
    assert c.U * s == s * c.U;
  }

  // ---------------------------------------------------------------------
  // Verify

  /** `TE::Verify` as written. `element_cmp` returns 0 for equal elements, so
      `res` holds when the ciphertext check PASSES and `ret_val` stays true
      when it fails. */
  function Verify(e: Engine, o: Oracle, c: Ciphertext, decrypted: int, publicKey: int): (accepted: bool)
    requires e.Valid()
    ensures !IntegrityOk(e, o, c) ==> accepted
    ensures IntegrityOk(e, o, c) && IsIdentity(e, decrypted) ==> !accepted
  {
    var res := IntegrityOk(e, o, c);
    if res then
      if IsIdentity(e, decrypted) then false
      else Pair(e, decrypted, Generator) == Pair(e, c.U, publicKey)
    else
      true
  }

  /** `Verify` is a function of the elements it is given, not of their
      representatives. */
  lemma VerifyOnElements(e: Engine, o: Oracle, c: Ciphertext, decrypted: int, publicKey: int)
    requires e.Valid()
    ensures Verify(e, o, c, decrypted, publicKey)
      == Verify(e, o, Ciphertext(c.U % e.R, c.V, c.W % e.R), decrypted % e.R, publicKey % e.R)
  {
    var R := e.R;
    IntegrityOnElements(e, o, c);
    ModMod(decrypted, R);
    PairWithGenerator(e, decrypted);
    PairWithGenerator(e, decrypted % R);
    ModMul(c.U, publicKey, R);
    ModMulLeft(c.U, publicKey % R, R);
    ModMod(publicKey, R);
  }

  /** `Verify` answers false exactly when the ciphertext passes its check and
      the share is the identity or differs from publicKey-times-U, that is
      e(decrypted, g) != e(U, publicKey). */
  lemma VerifyFalseExactly(e: Engine, o: Oracle, c: Ciphertext, decrypted: int, publicKey: int)
    requires e.Valid()
    ensures !Verify(e, o, c, decrypted, publicKey) <==>
      IntegrityOk(e, o, c) && (decrypted % e.R == 0 || decrypted % e.R != (c.U * publicKey) % e.R)
  {
    PairWithGenerator(e, decrypted);
  }

  /** A share produced by `Decrypt` with the secret key s passes `Verify`
      against s*g unless it is the identity. */
  lemma VerifyAcceptsDecryptedShare(e: Engine, o: Oracle, c: Ciphertext, s: int)
    requires e.Valid()
    requires Decrypt(e, o, c, s).Ok?
    requires !IsIdentity(e, Decrypt(e, o, c, s).value)
    ensures Verify(e, o, c, Decrypt(e, o, c, s).value, PublicKey(e, s))
  {
  }

  /** For a ciphertext that passes its check, a share other than s*U is
      rejected by `Verify` against s*g. */
  lemma VerifyRejectsForgedShare(e: Engine, o: Oracle, c: Ciphertext, s: int, decrypted: int)
    requires e.Valid() && IntegrityOk(e, o, c)
    requires decrypted % e.R != Scale(e, s, c.U)
    ensures !Verify(e, o, c, decrypted, PublicKey(e, s))
  {
    PairWithGenerator(e, decrypted);
    PairWithPublicKey(e, c.U, s);
  }

  /** As written, `Verify` accepts every share for a ciphertext that FAILS
      its check, e.g. one whose W was altered (see `TamperedWRejected`). */
  lemma VerifyAcceptsTamperedCiphertext(e: Engine, o: Oracle, c: Ciphertext, W': int, decrypted: int, publicKey: int)
    requires e.Valid() && IntegrityOk(e, o, c)
    requires W' % e.R != c.W % e.R
    ensures !IntegrityOk(e, o, c.(W := W'))
    ensures Verify(e, o, c.(W := W'), decrypted, publicKey)
  {
    TamperedWRejected(e, o, c, W');
  }

  /** The intended `Verify`: false for a ciphertext that fails its check,
      otherwise the same share test. */
  function VerifyIntended(e: Engine, o: Oracle, c: Ciphertext, decrypted: int, publicKey: int): (accepted: bool)
    requires e.Valid()
    ensures accepted ==> IntegrityOk(e, o, c)
    ensures IntegrityOk(e, o, c) ==> accepted == Verify(e, o, c, decrypted, publicKey)
  {
    IntegrityOk(e, o, c)
    && !IsIdentity(e, decrypted)
    && Pair(e, decrypted, Generator) == Pair(e, c.U, publicKey)
  }

  /** The intended `Verify` accepts exactly the non-identity share s*U of a
      ciphertext that passes its check. */
  lemma VerifyIntendedExactly(e: Engine, o: Oracle, c: Ciphertext, s: int, decrypted: int)
    requires e.Valid()
    ensures VerifyIntended(e, o, c, decrypted, PublicKey(e, s)) <==>
      IntegrityOk(e, o, c) && decrypted % e.R != 0 && decrypted % e.R == Scale(e, s, c.U)
  {
    PairWithGenerator(e, decrypted);
    PairWithPublicKey(e, c.U, s);
  }

  // ---------------------------------------------------------------------
  // CombineShares

  /** The `size_t` to `int` conversion of the indexes (two's complement
      wrap-around). */
  function ToInt32(n: nat): (r: Lagrange.Int32)
    ensures (r as int - n) % 0x1_0000_0000 == 0
    ensures n < 0x8000_0000 ==> r as int == n
  {
    var m := n % 0x1_0000_0000;
    ModAddMultiple(0, -(n / 0x1_0000_0000), 0x1_0000_0000);
    if m < 0x8000_0000 then m as Lagrange.Int32 else (m - 0x1_0000_0000) as Lagrange.Int32
  }

  /** The indexes of the first t shares, as `CombineShares` hands them to
      `LagrangeCoeffs`. */
  function Indexes(shares: seq<Share>, t: nat): (idx: seq<Lagrange.Int32>)
    requires t <= |shares|
    ensures |idx| == t
  {
    seq(t, i requires 0 <= i < t => ToInt32(shares[i].index))
  }

  /** lambda_0 * d_0 + ... + lambda_{k-1} * d_{k-1} over the integers. */
  function ShareSum(lambda: seq<int>, shares: seq<Share>, k: nat): int
    requires k <= |lambda| && k <= |shares|
  {
    if k == 0 then 0 else ShareSum(lambda, shares, k - 1) + lambda[k - 1] * shares[k - 1].decrypted
  }

  /** One step of the accumulation `sum = sum + lambda_i * d_i` in G1. */
  lemma ShareSumStep(e: Engine, lambda: seq<int>, shares: seq<Share>, i: nat)
    requires e.Valid() && i < |lambda| && i < |shares|
    ensures Add(e, ShareSum(lambda, shares, i) % e.R, Scale(e, lambda[i], shares[i].decrypted))
            == ShareSum(lambda, shares, i + 1) % e.R
  {
    var a, b := ShareSum(lambda, shares, i), lambda[i] * shares[i].decrypted;
    ModAdd(a, b, e.R);
  }

  /** What `CombineShares` returns or throws. */
  function Combination(e: Engine, o: Oracle, c: Ciphertext, shares: seq<Share>): (r: Result<Bytes, Error>)
    requires e.Valid() && o.Valid() && e.t <= |shares|
    requires IntegrityOk(e, o, c) ==> |c.V| == o.digestLen
    ensures r == Err(ShareCombining) <==> !IntegrityOk(e, o, c)
    ensures r != Err(Interpolation(Lagrange.NotEnoughParticipants))
    ensures r.Ok? ==> |r.value| == |c.V|
  {
    if !IntegrityOk(e, o, c) then
      Err(ShareCombining)
    else
      match Lagrange.Coeffs(Indexes(shares, e.t), e.t, e.R)
      case Err(f) => Err(Interpolation(f))
      case Ok(lambda) =>
        var sum := ShareSum(lambda, shares, e.t) % e.R;
        Ok(Xor(HashPad(e, o, sum), c.V))
  }

  /** The first loop of `CombineShares`: the index of each of the first t
      shares, converted to a C `int`, into a vector of size t. */
  method ShareIndexes(shares: seq<Share>, t: nat) returns (idx: seq<Lagrange.Int32>)
    requires t <= |shares|
    ensures idx == Indexes(shares, t)
  {
    var a := new Lagrange.Int32[t];
    var i := 0;
    while i < t
      invariant i <= t
      invariant a[..i] == Indexes(shares, i)
    {
      a[i] := ToInt32(shares[i].index);
      assert a[..i + 1] == a[..i] + [ToInt32(shares[i].index)];
      i := i + 1;
    }
    assert a[..] == a[..t];
    idx := a[..];
  }

  /** The accumulation loop of `CombineShares`: sum = lambda_0 * d_0 + ... +
      lambda_{t-1} * d_{t-1} in G1, starting from the identity. */
  method WeightedSum(e: Engine, lambda: seq<int>, shares: seq<Share>) returns (sum: int)
    requires e.Valid() && e.t <= |lambda| && e.t <= |shares|
    ensures sum == ShareSum(lambda, shares, e.t) % e.R
  {
    sum := 0;
    var i := 0;
    while i < e.t
      invariant i <= e.t
      invariant sum == ShareSum(lambda, shares, i) % e.R
    {
      var temp := Scale(e, lambda[i], shares[i].decrypted);
      ShareSumStep(e, lambda, shares, i);
      sum := Add(e, sum, temp);
      i := i + 1;
    }
  }

  /** `TE::CombineShares`: the ciphertext check, the indexes of the first t
      shares, their Lagrange coefficients, the weighted sum of the first t
      partial decryptions, and the pad from that sum XORed with V. The caller
      supplies at least t shares; a V that passes the check must be as long
      as the digest, since only then is the XOR defined. */
  method CombineShares(e: Engine, o: Oracle, c: Ciphertext, decrypted: seq<Share>) returns (res: Result<Bytes, Error>)
    requires e.Valid() && o.Valid()
    requires e.t <= |decrypted|
    requires IntegrityOk(e, o, c) ==> |c.V| == o.digestLen
    ensures res == Combination(e, o, c, decrypted)
  {
    if !IntegrityOk(e, o, c) {
      return Err(ShareCombining);
    }
    var idx := ShareIndexes(decrypted, e.t);
    var coeffs := Lagrange.LagrangeCoeffs(idx, e.t, e.R);
    if coeffs.Err? {
      return Err(Interpolation(coeffs.error));
    }
    var sum := WeightedSum(e, coeffs.value, decrypted);
    var pad := HashPad(e, o, sum);
    var message := Mask(pad, c.V);
    return Ok(message);
  }

  /** The check does not bind the length of V: for every payload, of any
      length, U = r*g and W = r*H(U, V) pass it. */
  lemma AnyPayloadPasses(e: Engine, o: Oracle, V: Bytes, r: int)
    requires e.Valid()
    ensures IntegrityOk(e, o, Ciphertext(Scale(e, r, Generator),
                                         V, Scale(e, r, HashToG1(e, o, Scale(e, r, Generator), V))))
  {
    var R := e.R;
    var U := Scale(e, r, Generator);
    var H := HashToG1(e, o, U, V);
    assert U == r % R;
    ModMod(r * H, R);
    ModMulLeft(r, H, R);
  }

  /** `CombineShares` is a function of the elements of the ciphertext, not
      of their representatives. */
  lemma CombinationOnElements(e: Engine, o: Oracle, c: Ciphertext, shares: seq<Share>)
    requires e.Valid() && o.Valid() && e.t <= |shares|
    requires IntegrityOk(e, o, c) ==> |c.V| == o.digestLen
    ensures IntegrityOk(e, o, Ciphertext(c.U % e.R, c.V, c.W % e.R)) == IntegrityOk(e, o, c)
    ensures Combination(e, o, c, shares) == Combination(e, o, Ciphertext(c.U % e.R, c.V, c.W % e.R), shares)
  {
    IntegrityOnElements(e, o, c);
  }

  /** Combining the shares of a ciphertext from `Encrypt` recovers the
      message whenever the weighted sum of the first t shares hashes to the
      pad of the shared secret r*public: XOR with one pad is an involution. */
  lemma CombinationRecoversMessage(e: Engine, o: Oracle, message: Bytes, commonPublic: int, r: int,
                                   shares: seq<Share>, lambda: seq<int>)
    requires e.Valid() && o.Valid() && |message| == o.digestLen && e.t <= |shares|
    requires Lagrange.Coeffs(Indexes(shares, e.t), e.t, e.R) == Ok(lambda)
    requires HashPad(e, o, ShareSum(lambda, shares, e.t) % e.R) == HashPad(e, o, Scale(e, r, commonPublic))
    ensures Combination(e, o, Encryption(e, o, message, commonPublic, r), shares) == Ok(message)
  {
    EncryptionPassesCheck(e, o, message, commonPublic, r);
    XorInvolution(HashPad(e, o, Scale(e, r, commonPublic)), message);
  }

  /** With a threshold of one and a prime group order, the engine round-trips:
      the share `Decrypt` makes with the secret key s, under any index that is
      nonzero in Zr, combines to the message encrypted under s*g. Later
      shares are ignored. */
  lemma SingleShareRoundTrip(e: Engine, o: Oracle, message: Bytes, s: int, r: int, shares: seq<Share>)
    requires e.Valid() && o.Valid() && IsPrime(e.R) && e.t == 1
    requires |message| == o.digestLen && 1 <= |shares|
    requires Decrypt(e, o, Encryption(e, o, message, PublicKey(e, s), r), s) == Ok(shares[0].decrypted)
    requires (ToInt32(shares[0].index) as int) % e.R != 0
    ensures Combination(e, o, Encryption(e, o, message, PublicKey(e, s), r), shares) == Ok(message)
  {
    var R := e.R;
    var lambda := [1];
    Lagrange.SingleCoefficient(Indexes(shares, 1), R);
    var d := shares[0].decrypted;
    var Y := Scale(e, r, PublicKey(e, s));
    assert ShareSum(lambda, shares, e.t) == d;
    DecryptEncryption(e, o, message, s, r);
    assert d == Y;
    ModMod(r * PublicKey(e, s), R);
    assert ShareSum(lambda, shares, e.t) % R == Y;
    CombinationRecoversMessage(e, o, message, PublicKey(e, s), r, shares, lambda);
  }

  lemma {:induction false} ShareSumPrefix(lambda: seq<int>, shares1: seq<Share>, shares2: seq<Share>, k: nat)
    requires k <= |lambda| && k <= |shares1| && k <= |shares2|
    requires forall i :: 0 <= i < k ==> shares1[i] == shares2[i]
    ensures ShareSum(lambda, shares1, k) == ShareSum(lambda, shares2, k)
  {
    if k > 0 {
      ShareSumPrefix(lambda, shares1, shares2, k - 1);
    }
  }

  /** Only the first t shares are used: share lists that agree on them combine
      to the same message or the same error. */
  lemma CombinationUsesFirstTShares(e: Engine, o: Oracle, c: Ciphertext, shares1: seq<Share>, shares2: seq<Share>)
    requires e.Valid() && o.Valid() && (IntegrityOk(e, o, c) ==> |c.V| == o.digestLen)
    requires e.t <= |shares1| && e.t <= |shares2| && shares1[..e.t] == shares2[..e.t]
    ensures Combination(e, o, c, shares1) == Combination(e, o, c, shares2)
  {
    forall i | 0 <= i < e.t
      ensures shares1[i] == shares2[i]
    {
      assert shares1[i] == shares1[..e.t][i] && shares2[i] == shares2[..e.t][i];
    }
    assert Indexes(shares1, e.t) == Indexes(shares2, e.t);
    match Lagrange.Coeffs(Indexes(shares1, e.t), e.t, e.R)
    case Err(_) =>
    case Ok(lambda) =>
      ShareSumPrefix(lambda, shares1, shares2, e.t);
  }

  /** Two of the first t shares with the same index make `CombineShares`
      fail with the duplicate-index error of `LagrangeCoeffs`. */
  lemma CombinationRejectsDuplicateIndexes(e: Engine, o: Oracle, c: Ciphertext, shares: seq<Share>, a: nat, b: nat)
    requires e.Valid() && o.Valid() && |c.V| == o.digestLen && e.t <= |shares|
    requires IntegrityOk(e, o, c)
    requires a < b < e.t && shares[a].index == shares[b].index
    ensures Combination(e, o, c, shares) == Err(Interpolation(Lagrange.DuplicateIndexes))
  {
    var idx := Indexes(shares, e.t);
    assert idx[a] == idx[b];
    assert Lagrange.HasDuplicate(idx, e.t);
  }

  // ---------------------------------------------------------------------
  // What the binding hash sees of V

  /** As written, H(U, V) hashes `V.c_str()`: for the payloads [0, 1] and
      [0, 2] every choice of hash function gives the same element. */
  lemma NulTailCounterexample(e: Engine, o: Oracle, U: int)
    requires e.Valid()
    ensures HashToG1(e, o, U, [0, 1]) == HashToG1(e, o, U, [0, 2])
  {
    assert CStr([0, 1]) == [] && CStr([0, 2]) == [];
  }

  /** Hence bytes of V after a NUL byte are not protected: replacing them
      keeps the ciphertext check passing and the partial decryptions equal. */
  lemma NulTailTamperingUndetected(e: Engine, o: Oracle, c: Ciphertext, k: nat, tail: Bytes, s: int)
    requires e.Valid() && IntegrityOk(e, o, c)
    requires k < |c.V| && c.V[k] == 0
    ensures IntegrityOk(e, o, c.(V := c.V[..k + 1] + tail))
    ensures Decrypt(e, o, c.(V := c.V[..k + 1] + tail), s) == Decrypt(e, o, c, s)
  {
    CStrStopsAtNul(c.V, k, tail);
  }

  /** The intended H(U, V): all of V is hashed. */
  function HashToG1Intended(e: Engine, o: Oracle, U: int, V: Bytes): (r: int)
    requires e.Valid()
    ensures 0 <= r < e.R
  {
    o.toElement(o.hashFunc(o.toDecimal(U % e.R)) + o.hashFunc(V)) % e.R
  }

  /** The intended H(U, V) binds every byte of V: for any two different
      payloads some well-formed hash function tells them apart. */
  lemma HashToG1IntendedBindsV(e: Engine, U: int, V1: Bytes, V2: Bytes)
    requires e.Valid() && V1 != V2
    ensures exists o: Oracle :: o.Valid() && HashToG1Intended(e, o, U, V1) != HashToG1Intended(e, o, U, V2)
  {
    var h: Bytes -> Bytes := s => if s == V1 then [1] else [2];
    var o := Oracle(h, _ => [], x => if x == h([]) + [1] then 0 else 1, 1);
    assert o.Valid();
    assert HashToG1Intended(e, o, U, V1) == 0;
    assert (h([]) + [2])[|h([])|] == 2;
    assert HashToG1Intended(e, o, U, V2) == 1;
  }
}
