/**
 The values a settings map holds: what the environment or a JSON document can put there. The
 account settings keep them as they are, and the IMAP login sends them as given.
 */
module Values {
  /** A value of the settings map. */
  datatype Value =
    | Null
    | Bool(b: bool)
    | Int(i: int)
    | Float(x: real)
    | Str(s: string)
    | Compound(size: nat)  // a JSON array or object, with its number of entries

  /** Python truthiness of a value. */
  predicate Truthy(v: Value) {
    match v
    case Null => false
    case Bool(b) => b
    case Int(i) => i != 0
    case Float(x) => x != 0.0
    case Str(s) => s != ""
    case Compound(n) => n != 0
  }

  /** Every value is true except `None`, `False`, zero and the empty ones. */
  lemma Falsy(v: Value)
    ensures !Truthy(v) <==> v in {Null, Bool(false), Int(0), Float(0.0), Str(""), Compound(0)}
  {
  }
}
