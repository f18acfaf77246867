/** The records of api/internal/common/types.go, the binding tag of
    api/internal/common/functions.go, and the opaque cryptographic and JOSE
    operations the API variant relies on. Times are integer nanoseconds, the
    unit of Go's time.Duration. */
module ApiCommon {
  import opened Wrappers
  import Base64

  const Second: int := 1_000_000_000

  /** A row of the `users` table. */
  datatype User = User(
    id: string,
    username: string,
    password: seq<Base64.byte>,  // the bcrypt hash
    createdAt: int,
    updatedAt: int,
    deletedAt: Option<int>)

  /** A row of the `sessions` table; `deletedAt` is the column Logout writes. */
  datatype Session = Session(
    id: string,
    userId: string,
    serverToken: string,
    clientToken: string,
    expiresAt: int,
    createdAt: int,
    updatedAt: int,
    deletedAt: Option<int>)

  /** The `users` and `sessions` tables behind the `db` handle of api/main.go. */
  class Database {
    var users: seq<User>
    var sessions: seq<Session>

    constructor (users: seq<User>, sessions: seq<Session>)
      ensures this.users == users && this.sessions == sessions
    {
      this.users := users;
      this.sessions := sessions;
    }
  }

  /** An HMAC-SHA-256 digest (RFC 2104 over SHA-256): always 32 bytes. */
  type Digest = d: seq<Base64.byte> | |d| == 32 witness seq(32, _ => 0)

  /** HMAC-SHA-256 keyed by the bytes of its first argument over the bytes of
      its second; the model treats it as an opaque function. */
  type Mac = (string, string) -> Digest

  /** The registered claims the code uses: `aud` and `exp` (a NumericDate,
      whole seconds). */
  datatype Claims = Claims(audience: seq<string>, expiry: int)

  /** The go-jose operations, opaque: their results depend only on their
      arguments, and each may fail. Intermediate objects are carried as their
      compact serialisation. */
  datatype Jose = Jose(
    // jose.NewSigner(HS256, key) followed by jwt.Signed(...).Claims(c).CompactSerialize()
    sign: (Claims, string) -> Option<string>,
    // jwt.ParseSignedAndEncrypted
    parseSignedAndEncrypted: string -> Option<string>,
    // NestedJSONWebToken.Decrypt(key)
    decrypt: (string, string) -> Option<string>,
    // JSONWebToken.Claims(key, &claims)
    claims: (string, string) -> Option<Claims>)

  /** The binding tag: base64 (section 4 of RFC 4648, padded) of the MAC of
      `data` keyed by `key`. The hex encoding the source computes beside it is
      discarded there and has no counterpart here. */
  function SymmetricEncryptBase64Encode(mac: Mac, key: string, data: string): (tag: string)
    ensures |tag| == 44
    ensures tag[43] == Base64.PadChar
    ensures forall i :: 0 <= i < 43 ==> Base64.IsSymbol(tag[i])
    ensures Base64.Decode(tag) == Some(mac(key, data))
  {
    var d := mac(key, data);
    Base64.EncodeThirtyTwo(d);
    Base64.DecodeEncode(d);
    Base64.Encode(d)
  }

  /** The contract pins the tag down: the only string that decodes to the
      MAC is the tag itself, the canonical padded encoding. */
  lemma TagIsCanonical(mac: Mac, key: string, data: string, s: string)
    requires Base64.Decode(s) == Some(mac(key, data))
    ensures s == SymmetricEncryptBase64Encode(mac, key, data)
  {
    Base64.DecodeInjective(s, SymmetricEncryptBase64Encode(mac, key, data));
  }

  /** Tags of different digests differ: the tag determines the MAC. */
  lemma TagDeterminesDigest(mac: Mac, k1: string, d1: string, k2: string, d2: string)
    requires SymmetricEncryptBase64Encode(mac, k1, d1) == SymmetricEncryptBase64Encode(mac, k2, d2)
    ensures mac(k1, d1) == mac(k2, d2)
  {
  }
}
