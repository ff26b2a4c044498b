/** The data every validator works on: the value view shared by the JavaScript
    original and the generated Rust, the failures a validator can end in, and the
    dependency calls whose order is observable. */
module Values {

  datatype Option<+T> = None | Some(value: T)

  /** An IEEE double as far as the validators can see it (the two zeros are one value). */
  datatype Num = Finite(r: real) | NaN | PosInf | NegInf

  datatype Value =
    | Undefined
    | Null
    | Bool(b: bool)
    | Number(n: Num)
    | Long(bits: nat)
    | Text(text: string)
    | Bytes(octets: seq<nat>)
    | Array(items: seq<Value>)
    | Object(fields: seq<Field>)

  datatype Field = Field(key: string, value: Value)

  datatype TransformKind = SafeInteger | MaybeNumber | SyncKeyId | DecodePatchDebugData | DecodeSyncActionData

  /** A call that leaves the validator: another validator, or a dependency. */
  datatype Callee = Validator(name: string) | Transform(kind: TransformKind)

  datatype Event = Event(callee: Callee, args: seq<Value>)

  type Log = seq<Event>

  /** `Unmodelled` is not an outcome of the original: it marks behaviour the
      semantics says nothing about (coercions, foreign globals, undeclared slots). */
  datatype Failure =
    | TypeError
    | Fatal(metric: Value, context: Value, message: string)
    | Dependency(kind: string, message: string)
    | Unmodelled

  datatype Answer = Done(value: Value) | Failed(failure: Failure)

  datatype Reply = Reply(answer: Answer, log: Log)

  /** What the outside world answers, given everything called so far. */
  type Oracle = (Log, Callee, seq<Value>) -> Reply

  /** Outcome of evaluating an expression over a state `S`. */
  datatype Out<+A, +S> = Val(value: A, state: S, log: Log) | Err(failure: Failure, log: Log) {
    predicate IsFailure() { Err? }
    function PropagateFailure<B, T>(): Out<B, T>
      requires Err?
    {
      Err(failure, log)
    }
    function Extract(): (A, S, Log)
      requires Val?
    {
      (value, state, log)
    }
  }

  /** Outcome of running statements over a state `S`. */
  datatype Flow<+S> = Next(state: S, log: Log) | Returned(value: Value, state: S, log: Log) | Raised(failure: Failure, log: Log)

  predicate Truthy(v: Value) {
    match v
    case Undefined => false
    case Null => false
    case Bool(b) => b
    case Number(n) => n != NaN && n != Finite(0.0)
    case Text(s) => s != ""
    case _ => true
  }

  predicate Nullish(v: Value) {
    v.Undefined? || v.Null?
  }

  predicate ArrayOrNullish(v: Value) {
    v.Array? || Nullish(v)
  }

  predicate NumGreater(a: Num, b: Num) {
    match (a, b)
    case (NaN, _) => false
    case (_, NaN) => false
    case (PosInf, _) => b != PosInf
    case (_, NegInf) => a != NegInf
    case (Finite(x), Finite(y)) => x > y
    case _ => false
  }

  function Count(n: nat): Num {
    Finite(n as real)
  }

  /** The value of the first field called `key`. */
  function Own(fields: seq<Field>, key: string): Option<Value> {
    if fields == [] then None
    else if fields[0].key == key then Some(fields[0].value)
    else Own(fields[1..], key)
  }

  /** Number of UTF-16 code units of a string of Unicode scalar values. */
  function Utf16Length(s: string): nat {
    if s == "" then 0 else (if s[0] as int >= 0x1_0000 then 2 else 1) + Utf16Length(s[1..])
  }

  /** A property that exists on the value itself: own fields and native lengths. */
  function OwnData(v: Value, key: string): Option<Value> {
    match v
    case Object(fields) => Own(fields, key)
    case Text(s) => if key == "length" then Some(Number(Count(Utf16Length(s)))) else None
    case Array(items) => if key == "length" then Some(Number(Count(|items|))) else None
    case Bytes(bs) => if key == "length" || key == "byteLength" then Some(Number(Count(|bs|))) else None
    case _ => None
  }

  /** Data read of the runtime view: absent properties are undefined. */
  function ReadField(v: Value, key: string): Answer {
    if Nullish(v) then Failed(TypeError)
    else match OwnData(v, key)
      case Some(x) => Done(x)
      case None => Done(Undefined)
  }

  function ArgAt(args: seq<Value>, i: nat): Value {
    if i < |args| then args[i] else Undefined
  }
}
