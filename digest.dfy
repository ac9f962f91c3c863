/** The `Digest` helper (src/helper/digest.rs). SHA-256 with hex encoding is
    taken as given: it is the function carried by `Hasher`, about which the
    model assumes nothing. What is modelled is how each digest's input is
    assembled. */
module Digest {
  import opened Prelude

  datatype Hasher = Hasher(sha256Hex: seq<byte> -> string) {

    /** `hash_bytes`: the digest of a byte string. */
    function HashBytes(input: seq<byte>): string {
      sha256Hex(input)
    }

    /** `hash_entry`: one hasher fed the line's bytes and then the bytes of the
        file digest's hex text, i.e. the digest of their concatenation. */
    function HashEntry(line: seq<byte>, fileSha: string): string {
      sha256Hex(line + Utf8(fileSha))
    }
  }

  /** Feeding the line and then the file digest is the same as hashing the
      encoding of the text `line + fileSha`: the entry digest is chained to
      the file digest. */
  lemma EntryDigestChainsFileDigest(h: Hasher, line: string, fileSha: string)
    ensures h.HashEntry(Utf8(line), fileSha) == h.HashBytes(Utf8(line + fileSha))
  {
    Utf8Append(line, fileSha);
  }
}
