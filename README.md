# Authentication sample: password hashing, tokens and the session registry

A Dafny model of the authentication module `auth.py`:

- `hash_password` derives a key from a password and a salt with PBKDF2-HMAC
  (digest `sha256`, 100000 iterations; section 5.2 of RFC 8018) and returns
  the key's lower-case hex text together with the salt. With no salt given it
  draws one with `secrets.token_hex(16)`.
- `verify_password` recomputes that hash under the given salt and compares
  the texts.
- `generate_token` builds a token record: a random URL-safe token, the user
  id, and an expiry `expiry_hours` (default 24) hours from now.
- `AuthService` holds `sessions`, a table from token text to token record.
  It starts empty. `login` consults a credential check (a placeholder that
  accepts everyone) and stores a fresh record under its own token. `logout`
  deletes a token's entry if there is one and reports whether there was.

`hex.dfy` (module `HexEncoding`) models `bytes.hex()`, the text form in which
both the derived key and a drawn salt appear, together with its inverse.
`auth.dfy` (module `Auth`) models the rest. The key-derivation function is a
parameter of type `Kdf`: any deterministic function of digest name, password,
salt and iteration count. The random bytes, the random token text and the
clock reading are parameters too. `AuthService` is a class whose
`sessions` field is a `map` that `Login` and `Logout` reassign. Its object
invariant `Valid()` says that every record is filed under its own token.

The credential check is the class's `verifyCredentials` field. The
constructor installs `AcceptAnyCredentials`, the placeholder. `Login`'s
contract covers both outcomes of the check, so it would still hold if the
constructor installed a different check. With the placeholder installed,
`Login` always returns a token.

The salt is text. The code passes the salt's hex text, UTF-8 encoded, to
PBKDF2, so the model's salt is a `string` and a drawn salt is the hex text of
16 random bytes.

## Model

| member | source | states |
|---|---|---|
| `HexEncoding.Hex` | packages/core/test/fixtures/sample-codebase/auth.py:21 | `hashed.hex()` yields two lower-case hex digits per byte: length twice the byte count, every character in `0-9a-f` |
| `HexEncoding.UnhexHex` | packages/core/test/fixtures/sample-codebase/auth.py:21 | decoding the hex text of any byte string gives back that byte string, so no information is lost in the hex form |
| `HexEncoding.HexInjective` | packages/core/test/fixtures/sample-codebase/auth.py:26-27 | two hex texts are equal exactly when the byte strings are, so comparing hex digests compares the derived keys |
| `Auth.HashPassword` | packages/core/test/fixtures/sample-codebase/auth.py:10-21 | a supplied salt is returned unchanged; with none, the salt is the 32-character hex text of the 16 drawn bytes; the hash is valid hex text whose decoding is the PBKDF2 key of the password and the returned salt |
| `Auth.HashDependsOnlyOnPasswordAndSalt` | packages/core/test/fixtures/sample-codebase/auth.py:15-21 | two calls that end with the same salt produce the same hash, however the salt was obtained |
| `Auth.VerifyPassword` | packages/core/test/fixtures/sample-codebase/auth.py:24-27 | `verify_password` recomputes the hash under the given salt and compares texts; it has no contract of its own, and `Auth.VerifyAcceptsExactlyTheDigest` proves it is true iff `hashed` is lower-case hex whose decoding is the derived key |
| `Auth.VerifyAcceptsExactlyTheDigest` | packages/core/test/fixtures/sample-codebase/auth.py:24-27 | `verify_password(p, h, s)` is true exactly when `h` is the hex text of the PBKDF2 key of `(p, s)`; any other `h` is rejected |
| `Auth.HashThenVerify` | packages/core/test/fixtures/sample-codebase/auth.py:10-27 | round trip: the pair `hash_password` returns verifies for the same password, with a supplied or a drawn salt |
| `Auth.VerifyMatchesOnlyEqualKeys` | packages/core/test/fixtures/sample-codebase/auth.py:24-27 | a stored hash accepts a candidate password and salt exactly when their PBKDF2 key equals the stored one: a wrong password or salt fails unless the key derivation collides |
| `Auth.GenerateToken` | packages/core/test/fixtures/sample-codebase/auth.py:30-39 | the record carries the given token and user id unchanged and expires `expiry_hours` hours after the clock reading |
| `Auth.AcceptAnyCredentials` | packages/core/test/fixtures/sample-codebase/auth.py:64-66 | the placeholder credential check accepts every username and password |
| `Auth.AuthService.constructor` | packages/core/test/fixtures/sample-codebase/auth.py:45-46 | a new service has an empty session table, satisfies the invariant, and checks credentials with the placeholder |
| `Auth.AuthService.Login` | packages/core/test/fixtures/sample-codebase/auth.py:48-55 | returns a token iff the credential check accepts; then the token is a key whose record has that token, the user id and a 24-hour expiry, every other entry is unchanged, and a colliding entry is overwritten; on rejection returns `None` and the table is unchanged; the invariant is kept |
| `Auth.AuthService.Logout` | packages/core/test/fixtures/sample-codebase/auth.py:57-62 | returns true iff the token was a key, and then the removed record was filed under that token; afterwards the token is absent, exactly that key is removed, every other entry is unchanged, and on false the table is unchanged; the invariant is kept |
| `Auth.LoginLogoutScenario` | packages/core/test/fixtures/sample-codebase/auth.py:45-62 | on a new service, login returns the fresh token; the first logout of it succeeds, the second fails, and the table is empty again |

## Left out

- PBKDF2-HMAC-SHA256 itself and the UTF-8 encoding of password and salt are not computed. They stand behind the `Kdf` parameter, which is only assumed deterministic. Nothing is assumed about collisions, so "a wrong password fails" is stated as "fails unless the derived keys coincide".
- Randomness is not modelled. The 16 bytes of `secrets.token_hex(16)` and the text of `secrets.token_urlsafe(32)` are parameters. Nothing is claimed about their entropy, the length of the URL-safe text, or token uniqueness.
- The clock is not modelled. `datetime.now()` is a parameter counted in whole seconds. `Auth.GenerateToken` keeps the expiry as that instant plus the lifetime in seconds, not its `isoformat()` text, and it drops sub-second precision and fractional `expiry_hours`.
- Auth.GenerateToken: does not model the `OverflowError` that `datetime.now() + timedelta(hours=expiry_hours)` raises when the expiry falls outside the date range Python can represent (for instance `expiry_hours = 10**8`); the model returns a record for every integer. `login` never reaches this path, since it always uses 24 hours.
- Auth.HashPassword: does not model the `UnicodeEncodeError` that `.encode('utf-8')` raises on a password or salt holding a lone surrogate code point; Dafny's `char` cannot hold one, so no model input reaches that path.
- Expiry is never enforced, because the source never reads it. Concurrent access to the session table is not modelled, because the source assumes one thread.
- `format_date` and `parse_json` in `helpers.py` are not part of this model. They only wrap `datetime` and `json` library calls.
