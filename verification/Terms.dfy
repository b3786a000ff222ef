/**
 Strings as symbolic terms: literal text, JSON texts, base64 texts, hashes, public keys and signatures. Terms
 are equal only when they were built the same way, which is the usual idealisation of collision-free hashing
 and unforgeable signatures. JSON is a tree, and parsing is the inverse of printing.
 */
module Terms {
  import opened Wrappers
  import Utf

  datatype Term =
    | Lit(text: string)
    | Pub(seed: Term)                              // hex public key of an Ed25519 seed
    | Digest(of: Term)                             // base64url of blake2b-256
    | Sig(secret: Term, pub: Term, hash: Term)     // 128 hex digits
    | Text(json: Json)                             // JSON.stringify
    | B64Text(of: Term)                            // btoa of a text
    | B64Bytes(bytes: Bytes)                       // btoa of a byte string

  datatype Json =
    | Null
    | Bool(b: bool)
    | Num(n: int)
    | Str(t: Term)
    | Arr(items: seq<Json>)
    | Obj(fields: map<string, Json>)

  /** Raw bytes, the output of AES-GCM, and the leading bytes of another byte string. */
  datatype Bytes =
    | Raw(data: seq<Utf.Byte>)
    | Sealed(key: CipherKey, iv: Bytes, plain: seq<Utf.Byte>)
    | Head(of: Bytes, n: nat)

  /** A key derived by PBKDF2 from what HMAC keeps of a password. */
  datatype CipherKey = Pbkdf2(hash: string, iterations: nat, salt: Bytes, hmacKey: seq<Utf.Byte>)

  const EMPTY := Lit("")

  function Parse(t: Term): Option<Json> {
    if t.Text? then Some(t.json) else None
  }

  function Field(j: Json, name: string): Option<Json> {
    if j.Obj? && name in j.fields then Some(j.fields[name]) else None
  }

  /** `s.includes(part)`. */
  predicate Contains(s: string, part: string) {
    exists i :: 0 <= i <= |s| && part <= s[i..]
  }
}
