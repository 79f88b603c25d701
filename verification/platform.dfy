/** What the firmware manager is given from outside the modelled code: the
    build configuration, the values `bl_data_init` installs, and the
    SHA-256 and HMAC-SHA-256 primitives (tinycrypt), which stay
    uninterpreted functions of their inputs. */
module Platform {
  import opened Bytes
  import Config
  import opened BlData

  datatype Env = Env(
    b: Config.Build,
    iv: InitValues,
    sha: Bytes -> Digest,
    /** HMAC-SHA-256 keyed by the first argument. */
    hmac: (Bytes, Bytes) -> Digest
  )

  predicate Valid(e: Env) {
    Config.WellFormed(e.b) && InitFits(e.b, e.iv)
  }
}
