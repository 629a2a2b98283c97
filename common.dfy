/** Values shared by every part of the model: optional values, outcomes
    that may have thrown, and the site's metadata. */
module Common {
  /** A value that may be `undefined` (or `null`). */
  datatype Option<+T> = None | Some(value: T) {
    /** The `??` operator: the value when present, `default` otherwise. */
    function GetOr(default: T): T {
      if Some? then value else default
    }
  }

  /** The outcome of a call that may throw. */
  datatype Result<+T, +E> = Ok(value: T) | Err(error: E)

  /** A string is truthy in JavaScript exactly when it is not empty. */
  predicate Present(o: Option<string>) {
    o.Some? && o.value != []
  }

  /** The fields of `siteMetadata` the model uses. */
  datatype SiteMetadata = SiteMetadata(siteUrl: string, title: string, feedDescription: string)

  const SiteUrl: string := "https://taslim.xyz"
}
