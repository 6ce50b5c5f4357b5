/** The settings of app/config.py, at their defaults. The signing secret, the
    signing algorithm and the database URL live behind the token codec and the
    store, which are parameters of this model. */
module Config {
  /** `ACCESS_TOKEN_EXPIRE_MINUTES`, 60 unless the environment overrides it. */
  const AccessTokenExpireMinutes: nat := 60

  /** `access_token_expiry()`, in seconds: the token codec writes `exp` as a
      whole number of seconds since the epoch. */
  const AccessTokenExpirySeconds: nat := AccessTokenExpireMinutes * 60
}
