/** The value type `com.google.auth.oauth2.AccessToken` of the credentials library. */
module GoogleAuth {
  import opened JavaLong

  /** A bearer token and its absolute expiry, in milliseconds since the epoch. */
  datatype AccessToken = AccessToken(tokenValue: string, expirationTime: Long)
}
