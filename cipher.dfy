/**
 * The content cipher (src/App.jsx:18-25). The application wraps a foreign
 * AES library whose behaviour is not part of this model, so both directions
 * are uninterpreted: a `Cipher` is any pair of total functions.
 */
module Crypto {
  import opened Wrappers

  /**
   * The random salt the library draws afresh on every encryption. Because
   * it is an argument, two encryptions of the same text under the same
   * passphrase are unrelated unless they were given the same salt.
   */
  type Salt = nat

  /**
   * `encrypt(text, secret, salt)` is the ciphertext envelope the library
   * returns when it has drawn `salt`.
   * `decrypt(envelope, secret)` is `None` when the library throws (wrong
   * passphrase or corrupt envelope, reported to the user as an alert) and
   * `Some(plaintext)` otherwise. No round trip is assumed: the library does
   * not authenticate, so a wrong passphrase may also yield `Some(garbage)`.
   */
  datatype Cipher = Cipher(
    encrypt: (string, string, Salt) -> string,
    decrypt: (string, string) -> Option<string>)
}
