/** The Python values the ACL reconciler works on: nested dictionary values,
    access control entries (ACEs) as dictionaries, ACL entries, the
    reconciliation state and the outcome of a step that can raise. */
module Values {

  datatype Option<T> = None | Some(value: T)

  /** The outcome of a computation that may raise; `Err` carries the name of
      the Python exception. */
  datatype Result<T> = Ok(value: T) | Err(error: string)

  /** Sequential composition of two command-producing steps: the first
      exception wins, otherwise the command lists are concatenated. */
  function Chain(a: Result<seq<string>>, b: Result<seq<string>>): (r: Result<seq<string>>)
    ensures r.Ok? <==> a.Ok? && b.Ok?
    ensures r.Ok? ==> r.value == a.value + b.value
    ensures a.Err? ==> r == a
    ensures b == Ok([]) ==> r == a
    ensures a == Ok([]) ==> r == b
  {
    if a.Err? then a
    else if b.Err? then b
    else
      assert b.value == [] ==> a.value + b.value == a.value;
      assert a.value == [] ==> a.value + b.value == b.value;
      Ok(a.value + b.value)
  }

  /** A JSON-like Python value as found in an ACE dictionary. */
  datatype Value =
    | Null
    | Bool(b: bool)
    | Int(i: int)
    | Str(s: string)
    | List(items: seq<Value>)
    | Dict(fields: map<string, Value>)

  /** Python truthiness, `bool(v)`. */
  predicate Truthy(v: Value) {
    match v
    case Null => false
    case Bool(b) => b
    case Int(i) => i != 0
    case Str(s) => s != ""
    case List(items) => items != []
    case Dict(fields) => fields != map[]
  }

  /** An access control entry: a dictionary such as
      `{"line": 1, "source": {...}, "destination": {...}, "protocol": "tcp"}`. */
  type Ace = map<string, Value>

  /** `ace.get(key)`: None when the key is absent. */
  function Get(ace: Ace, key: string): (v: Value)
    ensures key !in ace ==> v == Null
  {
    if key in ace then ace[key] else Null
  }

  /** One ACL entry `{"name": ..., "acl_type": ..., "rename": ..., "aces": [...]}`.
      `rename` is "" when the key is absent, None or empty (all falsy); `aces`
      is None when the key is absent or None. */
  datatype Acl = Acl(name: string, aclType: Value, rename: string, aces: Option<seq<Ace>>)

  /** The `{}` that stands for an ACL missing on one side. */
  const EmptyAcl: Acl := Acl("", Null, "", None)

  /** The ACEs of an entry, the empty list when it has none. */
  function AcesOf(acl: Acl): seq<Ace> {
    if acl.aces.Some? then acl.aces.value else []
  }

  /** Truthiness of `acl.get("aces")`. */
  predicate HasAces(acl: Acl) {
    acl.aces.Some? && acl.aces.value != []
  }

  /** The reconciliation state. `OtherState` stands for every state other
      than the four reconciliation modes: it takes none of their branches. */
  datatype State = Merged | Replaced | Overridden | Deleted | OtherState
}
