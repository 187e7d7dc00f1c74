/**
 Session validators as a closed set of kinds. A validator is identified by its
 name (the class name the chain persists and later instantiates by) and carries
 opaque data fed back into its constructor on reconstruction.
 */
module Validators {
  import opened Results
  import opened PhpValues

  /** The validator kinds the factory can build. */
  datatype Kind = HttpUserAgent | RemoteAddr | Id

  /** A live validator: its kind and the data it was configured with. */
  datatype Validator = Validator(kind: Kind, config: Value) {

    /** `getName()`: the class name, which doubles as the reconstruction key. */
    function Name(): string {
      KindName(kind)
    }

    /** `getData()`: the data handed to the constructor. */
    function Data(): Value {
      config
    }
  }

  function KindName(k: Kind): string {
    match k
    case HttpUserAgent => "Laminas\\Session\\Validator\\HttpUserAgent"
    case RemoteAddr => "Laminas\\Session\\Validator\\RemoteAddr"
    case Id => "Laminas\\Session\\Validator\\Id"
  }

  /** The kind whose class is called `name`, if any. */
  function KindOf(name: string): (r: Option<Kind>)
    ensures r.Some? ==> KindName(r.value) == name
    ensures r.None? ==> forall k: Kind :: KindName(k) != name
  {
    if name == KindName(HttpUserAgent) then Some(HttpUserAgent)
    else if name == KindName(RemoteAddr) then Some(RemoteAddr)
    else if name == KindName(Id) then Some(Id)
    else None
  }

  /** True when `name` names a class the factory can instantiate. */
  predicate KnownName(name: string) {
    exists k: Kind :: KindName(k) == name
  }

  /**
   `new $name($data)`: builds the validator of kind `name` configured with
   `data`, or nothing when no such class exists.
   */
  function Build(name: string, data: Value): (r: Option<Validator>)
    ensures r.Some? <==> KnownName(name)
    ensures r.Some? ==> r.value.Name() == name && r.value.Data() == data
  {
    match KindOf(name)
    case None => None
    case Some(k) => Some(Validator(k, data))
  }

  /** Building from a validator's own name and data gives that validator back. */
  lemma BuildInverse(v: Validator)
    ensures Build(v.Name(), v.Data()) == Some(v)
  {
  }
}
