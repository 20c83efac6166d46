/** The authentication module: salted password hashing and verification,
    token generation, and the in-memory session registry `AuthService`.

    What the model takes as inputs instead of computing:
    - the key-derivation function (PBKDF2-HMAC, section 5.2 of RFC 8018),
      a deterministic function of digest name, password, salt and
      iteration count;
    - the random bytes behind `secrets.token_hex(16)` and the random text of
      `secrets.token_urlsafe(32)`;
    - the clock reading `datetime.now()`, as whole seconds. */
module Auth {
  import opened HexEncoding

  datatype Option<T> = None | Some(value: T)

  /** Digest name handed to the key-derivation function. */
  const DIGEST := "sha256"
  /** Iteration count handed to the key-derivation function. */
  const ITERATIONS := 100000
  /** Random bytes drawn for a salt when the caller supplies none. */
  const SALT_BYTES := 16
  /** Lifetime of a token when the caller names none. */
  const DEFAULT_EXPIRY_HOURS := 24
  const SECONDS_PER_HOUR := 3600

  /** `hashlib.pbkdf2_hmac(digest, password, salt, iterations)` applied to
      the UTF-8 encodings of the password and salt texts. */
  type Kdf = (string, string, string, nat) -> seq<byte>

  /** The pair `(hashed.hex(), salt)` that `hash_password` returns. */
  datatype PasswordHash = PasswordHash(hash: string, salt: string)

  /** A token record: the dictionary `generate_token` builds. `expiresAt`
      is the expiry instant in seconds; the source stores its ISO 8601 text. */
  datatype TokenRecord = TokenRecord(token: string, userId: string, expiresAt: int)

  /** The key derived from a password and salt with the fixed parameters. */
  function DerivedKey(kdf: Kdf, password: string, salt: string): seq<byte> {
    kdf(DIGEST, password, salt, ITERATIONS)
  }

  /** `hash_password(password, salt)`. `entropy` stands for the bytes
      `secrets.token_hex(SALT_BYTES)` draws; it is used only when no salt is
      given. The hash is the hex text of the derived key and depends on
      nothing but the password and the salt returned beside it. */
  function HashPassword(kdf: Kdf, password: string, salt: Option<string>, entropy: seq<byte>): (r: PasswordHash)
    requires salt.None? ==> |entropy| == SALT_BYTES
    ensures salt.Some? ==> r.salt == salt.value
    ensures salt.None? ==> IsHex(r.salt) && |r.salt| == 2 * SALT_BYTES && Unhex(r.salt) == entropy
    ensures IsHex(r.hash) && Unhex(r.hash) == DerivedKey(kdf, password, r.salt)
  {
    var s := if salt.Some? then salt.value else Hex(entropy);
    UnhexHex(entropy);
    UnhexHex(DerivedKey(kdf, password, s));
    PasswordHash(Hex(DerivedKey(kdf, password, s)), s)
  }

  /** `verify_password(password, hashed, salt)`: recompute the hash with
      the given salt and compare texts. */
  function VerifyPassword(kdf: Kdf, password: string, hashed: string, salt: string): bool {
    HashPassword(kdf, password, Some(salt), []).hash == hashed
  }

  /** Verification accepts exactly the hex text of the derived key: any
      other text, including a tampered or upper-case one, is rejected. */
  lemma VerifyAcceptsExactlyTheDigest(kdf: Kdf, password: string, hashed: string, salt: string)
    ensures VerifyPassword(kdf, password, hashed, salt)
        <==> IsHex(hashed) && Unhex(hashed) == DerivedKey(kdf, password, salt)
  {
    if IsHex(hashed) && Unhex(hashed) == DerivedKey(kdf, password, salt) {
      HexUnhex(hashed);
    }
  }

  /** Two hashes of one password under the same salt are the same text,
      whatever else the calls were given. */
  lemma HashDependsOnlyOnPasswordAndSalt(kdf: Kdf, password: string,
                                         salt1: Option<string>, entropy1: seq<byte>,
                                         salt2: Option<string>, entropy2: seq<byte>)
    requires salt1.None? ==> |entropy1| == SALT_BYTES
    requires salt2.None? ==> |entropy2| == SALT_BYTES
    requires HashPassword(kdf, password, salt1, entropy1).salt == HashPassword(kdf, password, salt2, entropy2).salt
    ensures HashPassword(kdf, password, salt1, entropy1).hash == HashPassword(kdf, password, salt2, entropy2).hash
  {
  }

  /** Round trip: the pair `hash_password` returns verifies, whether the
      salt was supplied or drawn. */
  lemma HashThenVerify(kdf: Kdf, password: string, salt: Option<string>, entropy: seq<byte>)
    requires salt.None? ==> |entropy| == SALT_BYTES
    ensures var r := HashPassword(kdf, password, salt, entropy);
            VerifyPassword(kdf, password, r.hash, r.salt)
  {
  }

  /** A stored hash verifies a candidate password and salt exactly when the
      derived keys coincide: a wrong password or a wrong salt is rejected
      unless PBKDF2 itself collides. */
  lemma VerifyMatchesOnlyEqualKeys(kdf: Kdf, password: string, salt: string,
                                   candidate: string, candidateSalt: string)
    ensures VerifyPassword(kdf, candidate, HashPassword(kdf, password, Some(salt), []).hash, candidateSalt)
        <==> DerivedKey(kdf, candidate, candidateSalt) == DerivedKey(kdf, password, salt)
  {
  }

  /** `generate_token(user_id, expiry_hours)`. `token` stands for the text of
      `secrets.token_urlsafe(32)` and `now` for the clock reading. */
  function GenerateToken(userId: string, expiryHours: int, token: string, now: int): (r: TokenRecord)
    ensures r.token == token && r.userId == userId
    ensures r.expiresAt == now + expiryHours * SECONDS_PER_HOUR
  {
    TokenRecord(token, userId, now + expiryHours * SECONDS_PER_HOUR)
  }

  /** `AuthService._verify_credentials`: the placeholder accepts everyone. */
  function AcceptAnyCredentials(username: string, password: string): (ok: bool)
    ensures ok
  {
    true
  }

  /** Every record in a registry is filed under its own token. */
  ghost predicate KeyedByToken(sessions: map<string, TokenRecord>) {
    forall t :: t in sessions ==> sessions[t].token == t
  }

  /** The session registry. Each token goes absent -> active on `Login`
      and active -> absent on `Logout`; expiry is recorded, never checked. */
  class AuthService {
    var sessions: map<string, TokenRecord>
    /** The credential check `Login` consults. */
    const verifyCredentials: (string, string) -> bool

    ghost predicate Valid()
      reads this
    {
      KeyedByToken(sessions)
    }

    /** A new service has no sessions and the placeholder credential check. */
    constructor ()
      ensures Valid()
      ensures sessions == map[]
      ensures verifyCredentials == AcceptAnyCredentials
    {
      sessions := map[];
      verifyCredentials := AcceptAnyCredentials;
    }

    /** `login(username, password)`: on accepted credentials, store a new
        token record under its token (overwriting a record that happens to
        share the token) and return the token; otherwise return `None` and
        leave the registry as it was. */
    method Login(username: string, password: string, freshToken: string, now: int)
      returns (token: Option<string>)
      requires Valid()
      modifies this
      ensures Valid()
      ensures token.Some? <==> verifyCredentials(username, password)
      ensures token.Some? ==>
        && token.value == freshToken
        && freshToken in sessions
        && sessions[freshToken] == GenerateToken(username, DEFAULT_EXPIRY_HOURS, freshToken, now)
        && sessions == old(sessions)[freshToken := sessions[freshToken]]
      ensures forall t :: t != freshToken ==>
        (t in sessions <==> t in old(sessions)) && (t in sessions ==> sessions[t] == old(sessions)[t])
      ensures token.None? ==> sessions == old(sessions)
    {
      if verifyCredentials(username, password) {
        var record := GenerateToken(username, DEFAULT_EXPIRY_HOURS, freshToken, now);
        sessions := sessions[record.token := record];
        token := Some(record.token);
      } else {
        token := None;
      }
    }

    /** `logout(token)`: remove the token's record if there is one and say
        whether there was. */
    method Logout(token: string) returns (removed: bool)
      requires Valid()
      modifies this
      ensures Valid()
      ensures removed <==> token in old(sessions)
      ensures token !in sessions
      ensures sessions == old(sessions) - {token}
      ensures removed ==> old(sessions)[token].token == token
      ensures forall t :: t != token ==>
        (t in sessions <==> t in old(sessions)) && (t in sessions ==> sessions[t] == old(sessions)[t])
      ensures !removed ==> sessions == old(sessions)
    {
      if token in sessions {
        sessions := sessions - {token};
        removed := true;
      } else {
        removed := false;
      }
    }
  }

  /** A new service logs a user in; logging the token out succeeds once
      and then fails, and the registry is empty again. */
  method LoginLogoutScenario(username: string, password: string, freshToken: string, now: int)
    returns (token: Option<string>, first: bool, second: bool, remaining: map<string, TokenRecord>)
    ensures token == Some(freshToken)
    ensures first && !second
    ensures remaining == map[]
  {
    var service := new AuthService();
    token := service.Login(username, password, freshToken, now);
    first := service.Logout(freshToken);
    second := service.Logout(freshToken);
    remaining := service.sessions;
  }
}
