/** Explicit stand-ins for the runtime type information the codec reads
    through reflection: a type descriptor per Go type the codec distinguishes,
    a field descriptor per struct field (Go name, `aero` tag text, declared
    type), and a dynamic value that knows its own type. */
module Values {
  import opened Wrappers

  /** Signed integer kinds; `int` is 64 bits wide. */
  datatype IntKind = Int | Int8 | Int16 | Int32 | Int64

  /** Unsigned integer kinds; `uint` is 64 bits wide. */
  datatype UintKind = Uint | Uint8 | Uint16 | Uint32 | Uint64

  /** Smallest and largest value of a signed kind. */
  function IntMin(k: IntKind): int {
    match k
    case Int8 => -0x80
    case Int16 => -0x8000
    case Int32 => -0x8000_0000
    case _ => -0x8000_0000_0000_0000
  }

  function IntMax(k: IntKind): int {
    match k
    case Int8 => 0x7F
    case Int16 => 0x7FFF
    case Int32 => 0x7FFF_FFFF
    case _ => 0x7FFF_FFFF_FFFF_FFFF
  }

  /** Largest value of an unsigned kind. */
  function UintMax(k: UintKind): int {
    match k
    case Uint8 => 0xFF
    case Uint16 => 0xFFFF
    case Uint32 => 0xFFFF_FFFF
    case _ => 0xFFFF_FFFF_FFFF_FFFF
  }

  predicate InIntRange(k: IntKind, i: int) {
    IntMin(k) <= i <= IntMax(k)
  }

  predicate InUintRange(k: UintKind, n: int) {
    0 <= n <= UintMax(k)
  }

  /** Go's conversion of an integer to a signed kind: keep the low bits of the
      two's-complement representation. */
  function WrapInt(k: IntKind, i: int): (r: int)
    ensures InIntRange(k, r)
    ensures InIntRange(k, i) ==> r == i
    ensures (r - i) % (IntMax(k) - IntMin(k) + 1) == 0
  {
    var span := IntMax(k) - IntMin(k) + 1;
    (i - IntMin(k)) % span + IntMin(k)
  }

  /** Declared type of a field or element. Named non-struct types are
      identified with their underlying type. */
  datatype Type =
    | TInt(ik: IntKind)
    | TUint(uk: UintKind)
    | TString
    | TBool
    | TTime                                // time.Time, an opaque instant
    | TAny                                 // interface{}
    | TKey                                 // the client library's key type
    | TSlice(elem: Type)
    | TArray(len: nat, elem: Type)
    | TMap(key: Type, val: Type)
    | TPtr(elem: Type)
    | TStruct(name: string, fields: seq<Field>)

  /** A struct field: Go name (for an embedded field, the type's name), the
      value of its `aero` tag ("" when absent), its declared type, and whether
      it is embedded. */
  datatype Field = Field(name: string, tag: string, ty: Type, embedded: bool)

  /** Go exports a field when its name starts with an upper-case letter. */
  predicate IsExported(name: string) {
    |name| > 0 && 'A' <= name[0] <= 'Z'
  }

  type Byte = b: int | 0 <= b < 256

  /** A dynamic value. `VInvalid` is the absent value (Go's zero
      reflect.Value, also an untyped nil); a pointer is nil when its target
      is `VInvalid`, and so is an interface value whose content is. */
  datatype Value =
    | VInvalid
    | VInt(ik: IntKind, i: int)
    | VUint(uk: UintKind, n: int)
    | VString(s: string)
    | VBool(b: bool)
    | VTime(instant: int)                  // the zero time is instant 0
    | VIface(dyn: Value)
    | VSlice(elemTy: Type, items: seq<Value>)
    | VArray(elemTy: Type, items: seq<Value>)
    | VMap(keyTy: Type, valTy: Type, entries: seq<(Value, Value)>)
    | VPtr(elemTy: Type, target: Value)
    | VStruct(name: string, fields: seq<Field>, vals: seq<Value>)
      /** The record key of the client library, seen through its accessors:
          Namespace(), SetName(), Value().GetObject() (None when Value()
          returns a nil interface) and Digest(). */
    | VKey(namespace: string, setName: string, userKey: Option<Value>, digest: seq<Byte>)

  /** The struct kinds: reflection reports Kind() == Struct for these. */
  predicate IsStructKind(v: Value) {
    v.VStruct? || v.VKey? || v.VTime?
  }

  predicate IsNilPtr(v: Value) {
    v.VPtr? && v.target == VInvalid
  }

  /** Field `i` of a struct value; a missing slot reads as absent. */
  function At(vals: seq<Value>, i: nat): Value {
    if i < |vals| then vals[i] else VInvalid
  }

  /** What reading a value through `interface{}` yields: the content. */
  function Unbox(v: Value): Value {
    if v.VIface? then v.dyn else v
  }

  function TypeOf(v: Value): Type
    requires v != VInvalid
  {
    match v
    case VInt(k, _) => TInt(k)
    case VUint(k, _) => TUint(k)
    case VString(_) => TString
    case VBool(_) => TBool
    case VTime(_) => TTime
    case VIface(_) => TAny
    case VSlice(e, _) => TSlice(e)
    case VArray(e, items) => TArray(|items|, e)
    case VMap(k, w, _) => TMap(k, w)
    case VPtr(e, _) => TPtr(e)
    case VStruct(n, fs, _) => TStruct(n, fs)
    case VKey(_, _, _, _) => TKey
  }

  /** Length of a digest, the `[20]byte` of the key. */
  const DigestLength: nat := 20

  function ByteValues(bs: seq<Byte>): (vs: seq<Value>)
    ensures |vs| == |bs|
    ensures forall i :: 0 <= i < |bs| ==> vs[i] == VUint(Uint8, bs[i])
  {
    seq(|bs|, i requires 0 <= i < |bs| => VUint(Uint8, bs[i]))
  }

  /** The zero value of `t`, what Go's reflect.Zero builds. */
  function Zero(t: Type): (v: Value)
    ensures v != VInvalid && TypeOf(v) == t
  {
    match t
    case TInt(k) => VInt(k, 0)
    case TUint(k) => VUint(k, 0)
    case TString => VString("")
    case TBool => VBool(false)
    case TTime => VTime(0)
    case TAny => VIface(VInvalid)
    case TKey => VKey("", "", None, seq(DigestLength, _ => 0))
    case TSlice(e) => VSlice(e, [])
    case TArray(n, e) => VArray(e, seq(n, i requires 0 <= i < n => Zero(e)))
    case TMap(k, w) => VMap(k, w, [])
    case TPtr(e) => VPtr(e, VInvalid)
    case TStruct(n, fs) => VStruct(n, fs, seq(|fs|, i requires 0 <= i < |fs| => Zero(fs[i].ty)))
  }

  /** `v` is a value of type `t`, all the way down: integers lie in their
      kind's range, element, field and pointee values have the declared
      types, and an interface holds either nothing or a well-formed
      non-interface value. */
  predicate HasType(v: Value, t: Type)
    decreases v
  {
    match v
    case VInvalid => false
    case VInt(k, i) => t == TInt(k) && InIntRange(k, i)
    case VUint(k, n) => t == TUint(k) && InUintRange(k, n)
    case VString(_) => t == TString
    case VBool(_) => t == TBool
    case VTime(_) => t == TTime
    case VIface(d) => t == TAny && (d == VInvalid || (!d.VIface? && HasType(d, TypeOf(d))))
    case VSlice(e, items) => t == TSlice(e) && forall i :: 0 <= i < |items| ==> HasType(items[i], e)
    case VArray(e, items) => t == TArray(|items|, e) && forall i :: 0 <= i < |items| ==> HasType(items[i], e)
    case VMap(k, w, es) =>
      && t == TMap(k, w)
      && forall i :: 0 <= i < |es| ==> HasType(es[i].0, k) && HasType(es[i].1, w)
    case VPtr(e, x) => t == TPtr(e) && (x == VInvalid || HasType(x, e))
    case VStruct(n, fs, vs) =>
      && t == TStruct(n, fs)
      && |vs| == |fs|
      && forall i :: 0 <= i < |fs| ==> HasType(vs[i], fs[i].ty)
    case VKey(_, _, uk, dg) =>
      && t == TKey
      && |dg| == DigestLength
      && (uk.Some? ==> uk.value == VInvalid || (!uk.value.VIface? && HasType(uk.value, TypeOf(uk.value))))
  }

  /** A value that is consistent with its own type. */
  predicate WellFormed(v: Value) {
    v != VInvalid && HasType(v, TypeOf(v))
  }

  /** What may legitimately be handed to a conversion: nothing, or a
      well-formed value. */
  predicate ValidSource(v: Value) {
    v == VInvalid || WellFormed(v)
  }

  lemma HasTypeIsTypeOf(v: Value, t: Type)
    requires HasType(v, t)
    ensures v != VInvalid && TypeOf(v) == t && WellFormed(v)
  {
  }

  /** Every zero value is well-typed. */
  lemma {:induction false} ZeroHasType(t: Type)
    ensures HasType(Zero(t), t)
    decreases t
  {
    match t
    case TArray(n, e) =>
      ZeroHasType(e);
    case TStruct(n, fs) =>
      forall i | 0 <= i < |fs|
        ensures HasType(Zero(t).vals[i], fs[i].ty)
      {
        ZeroHasType(fs[i].ty);
      }
    case TKey =>
    case _ =>
  }
}
