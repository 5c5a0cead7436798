/** The two persisted records: the key dictionary `generate_keys` returns and
    `save_keys` writes, and the capsule dictionary the front-ends assemble and
    `save_capsule` writes. Field values are texts, as in the JSON files. */
module Records {

  /** `{'kem_public', 'kem_secret', 'sig_public', 'sig_secret'}`: the base64
      text of each PEM-serialised key. */
  datatype KeyBundle = KeyBundle(kemPublic: string, kemSecret: string, sigPublic: string, sigSecret: string)

  /** `{'timestamp', 'unlock_date', 'ciphertext', 'kem_ct', 'signature'}`. */
  datatype Capsule = Capsule(timestamp: string, unlockDate: string, ciphertext: string, kemCt: string, signature: string)
}
