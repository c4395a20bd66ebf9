/** The table of supported hashing methods, keyed by their command-line names. */
module Hashing {
  import opened Results

  /** The hash algorithms `hashlib` provides to the tool. */
  datatype Algorithm = Md5 | Sha1 | Sha256 | Sha512

  /** The name under which each algorithm is selected. */
  function Name(a: Algorithm): string
  {
    match a
    case Md5 => "md5"
    case Sha1 => "sha1"
    case Sha256 => "sha256"
    case Sha512 => "sha512"
  }

  /** The fixed method table. */
  const METHODS: map<string, Algorithm> :=
    map["md5" := Md5, "sha1" := Sha1, "sha256" := Sha256, "sha512" := Sha512]

  /**
   * `METHODS[name]`: an algorithm exactly for the four names, and then the
   * one that carries that name; nothing (the `KeyError`) for any other name.
   */
  function MethodFor(name: string): (r: Option<Algorithm>)
    ensures r.Some? <==> name in {"md5", "sha1", "sha256", "sha512"}
    ensures r.Some? ==> Name(r.value) == name
  {
    if name in METHODS then Some(METHODS[name]) else None
  }

  /** Every algorithm is found under its own name. */
  lemma MethodForName(a: Algorithm)
    ensures MethodFor(Name(a)) == Some(a)
  {
  }
}
