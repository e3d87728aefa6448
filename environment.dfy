/**
 * What the backend takes from outside: the clock, the application configuration and the
 * cryptographic libraries (PyJWT, flask-bcrypt, itsdangerous). The libraries are not
 * modelled; each is a record of functions the caller supplies, so nothing is assumed
 * about them beyond their signatures.
 */
module Environment {
  import opened Wrappers

  /** Seconds since the epoch. */
  type Time = int

  /** The claims of a session token (PyJWT payload); a claim may be missing from a decoded token. */
  datatype Claims = Claims(exp: Option<Time>, iat: Option<Time>, sub: Option<string>, name: Option<string>)

  /** `jwt.decode`: the payload, or the exception it raises. */
  datatype Decoded = DecodeOk(claims: Claims) | SignatureExpired | InvalidToken

  /** `jwt.encode(...).decode("utf-8")`: the token text, or the exception raised on the way. */
  datatype Encoded = EncodeOk(token: string) | EncodeError(message: string)

  /** HS512 signing and verification with a secret key. */
  datatype Jwt = Jwt(encode: (Claims, string) -> Encoded, decode: (string, string) -> Decoded)

  /** `URLSafeTimedSerializer.loads`: the signed payload, or any exception (bad signature, too old). */
  datatype Loaded = LoadOk(payload: string) | LoadFailed

  /**
   * `URLSafeTimedSerializer(secret)`: `dumps(secret, payload, now)` signs a payload stamped
   * with the time; `loads(secret, code, maxAge, now)` checks it.
   */
  datatype Signer = Signer(dumps: (string, string, Time) -> string, loads: (string, string, int, Time) -> Loaded)

  /** flask-bcrypt: `hash(password, salt)` and `check(hash, password)`; the salt is the randomness. */
  datatype Bcrypt = Bcrypt(hash: (string, int) -> string, check: (string, string) -> bool)

  /**
   * The Flask configuration: `SECRET_KEY` and `EMAIL_EXP` (the maximum age of a signed
   * code, in seconds). `EMAIL_EXP` is `None` when the configuration does not define it.
   */
  datatype Config = Config(secretKey: string, emailExp: Option<int>)

  /** The configuration classes as shipped: `SECRET_KEY` from the environment, no `EMAIL_EXP`. */
  function ShippedConfig(secretKey: string): Config {
    Config(secretKey, None)
  }
}
