/** Record encryption as the vault controller sees it: `encrypt(passphrase,
    json.dumps(entry))` and `json.loads(decrypt(passphrase, record))` of
    app/crypto/crypto_utils.py (PBKDF2-HMAC-SHA-256 key derivation from a
    fresh 16-byte salt, then AES-256-GCM with a fresh 12-byte nonce).

    The cipher is modelled symbolically, as an ideal authenticated encryption:
    a record produced by `Encrypt` is a term that remembers the passphrase it
    was sealed under and opens for that passphrase only, and a record that
    `Encrypt` did not produce (a hand-edited or foreign object in the vault
    file) opens for no passphrase. This is the guarantee AES-GCM gives up to
    negligible probability (NIST SP 800-38D); the model takes it as its
    definition of the cipher rather than proving it. */
module Cipher {
  import opened Wrappers

  /** The decrypted form of one record: the JSON object
      `{"service": ..., "username": ..., "password": ...}`. */
  datatype Entry = Entry(service: string, username: string, password: string)

  /** The randomness one `encrypt` call draws: `os.urandom(16)` and
      `os.urandom(12)`. */
  datatype Coins = Coins(salt: seq<bv8>, nonce: seq<bv8>)

  /** One element of the vault file's JSON array. */
  datatype Record =
    | Sealed(passphrase: string, coins: Coins, plaintext: Entry)
    | Unreadable(text: string)

  /** `encrypt(passphrase, json.dumps(entry))`: the record opens under the
      passphrase it was sealed with, to exactly the entry sealed, and under
      no other passphrase. */
  function Encrypt(passphrase: string, entry: Entry, coins: Coins): (r: Record)
    ensures Decrypt(passphrase, r) == Some(entry)
    ensures forall other :: other != passphrase ==> Decrypt(other, r) == None
  {
    Sealed(passphrase, coins, entry)
  }

  /** `json.loads(decrypt(passphrase, record))`, with `None` for any
      exception it raises (a failed tag check, a missing key, bad base64). */
  function Decrypt(passphrase: string, r: Record): (e: Option<Entry>)
    ensures e.Some? ==> r.Sealed? && r.passphrase == passphrase
  {
    match r
    case Sealed(p, _, entry) => if p == passphrase then Some(entry) else None
    case Unreadable(_) => None
  }

  /** Authenticity: a record that opens under a passphrase was produced by
      `Encrypt` under that passphrase, of the entry it opens to. */
  lemma OpensOnlyIfEncrypted(passphrase: string, r: Record)
    requires Decrypt(passphrase, r).Some?
    ensures exists coins :: r == Encrypt(passphrase, Decrypt(passphrase, r).value, coins)
  {
    assert r == Encrypt(passphrase, Decrypt(passphrase, r).value, r.coins);
  }
}
