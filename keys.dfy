/** The key material shared by the plain-RSA and key-generation code: the
    `PublicKey` and `PrivateKey` structs of proj/rsa/src/plain_rsa.rs and the
    `Generator` struct of proj/rsa/src/generator.rs. The two source files
    import each other; the three records live here so that the modules that
    operate on them need not. */
module Keys {

  /** A public key: modulus `n` and public exponent `e`. */
  datatype PublicKey = PublicKey(n: nat, e: nat)

  /** A private key: modulus `n` and private exponent `d`. */
  datatype PrivateKey = PrivateKey(n: nat, d: nat)

  /** A generated key pair: modulus, public and private exponent. */
  datatype Generator = Generator(n: nat, e: nat, d: nat)
}
