/** The reflection helpers of the codec: how a struct argument is reached,
    field access with one pointer dereference, the emptiness test, field and
    key-method lookup, and the recursive coercion of a value to a target type
    together with the nested-struct copy it relies on. */
module Reflect {
  import opened Wrappers
  import opened Text
  import opened Values
  import opened Errors
  import opened Tags

  // ---------------------------------------------------------------------------
  // Places: how a value was reached

  /** What reflection remembers about how a value was obtained: whether it is
      addressable, and the two read-only marks. Reading a non-exported field
      marks the result read-only; for a non-embedded field the mark sticks to
      everything reached through it, for an embedded one it does not. */
  datatype Place = Place(addr: bool, stickyRO: bool, embedRO: bool)

  /** A value handed over directly: neither addressable nor read-only. */
  const Detached := Place(false, false, false)

  /** The target of a pointer handed over directly. */
  const Pointee := Place(true, false, false)

  predicate ReadOnly(p: Place) {
    p.stickyRO || p.embedRO
  }

  /** Assignment is allowed on addressable values that are not read-only. */
  predicate CanSet(p: Place) {
    p.addr && !ReadOnly(p)
  }

  /** The place of field `f` of a struct at place `p`. */
  function FieldPlace(p: Place, f: Field): (q: Place)
    ensures q.addr == p.addr
    ensures IsExported(f.name) ==> (ReadOnly(q) <==> p.stickyRO)
    ensures !IsExported(f.name) ==> ReadOnly(q)
  {
    var hidden := !IsExported(f.name);
    Place(p.addr, p.stickyRO || (hidden && !f.embedded), hidden && f.embedded)
  }

  /** The place of the target of a pointer at place `p`: always addressable,
      read-only when the pointer was. */
  function ElemPlace(p: Place): (q: Place)
    ensures q.addr && (ReadOnly(q) <==> ReadOnly(p))
  {
    Place(true, p.stickyRO, p.embedRO)
  }

  /** The fields reflection lists for a struct-kind value. The key and the
      time value have only non-exported, untagged fields, which no part of
      the codec can use, so they are listed as having none. */
  function FieldsOf(v: Value): seq<Field> {
    if v.VStruct? then v.fields else []
  }

  function ValsOf(v: Value): seq<Value> {
    if v.VStruct? then v.vals else []
  }

  /** One pointer dereferenced: the target of a pointer (absent when the
      pointer is nil), any other value itself. */
  function Deref(v: Value): Value {
    if v.VPtr? then v.target else v
  }

  /** Field `i` of struct `v`, with one pointer dereferenced: a nil pointer
      field gives the absent value, a non-nil one its addressable target. */
  function FieldValueDeref(v: Value, p: Place, i: nat): (r: (Value, Place))
    requires i < |FieldsOf(v)|
    ensures var f := At(ValsOf(v), i);
      && r.0 == Deref(f)
      && (IsNilPtr(f) ==> r.0 == VInvalid && !IsStructKind(r.0))
      && (f.VPtr? ==> r.1.addr && (ReadOnly(r.1) <==> ReadOnly(FieldPlace(p, FieldsOf(v)[i]))))
      && (!f.VPtr? ==> r.1 == FieldPlace(p, FieldsOf(v)[i]))
  {
    var f := At(ValsOf(v), i);
    var q := FieldPlace(p, FieldsOf(v)[i]);
    (Deref(f), if f.VPtr? then ElemPlace(q) else q)
  }

  // ---------------------------------------------------------------------------
  // Reaching a struct

  /** An argument of the codec: either a plain value (an `interface{}`
      argument, which never holds an interface) or an already reflected
      value together with its place. */
  datatype Arg = Boxed(v: Value) | Reflected(v: Value, place: Place)

  /** A plain argument must be a struct or a pointer to one, which is then
      dereferenced; an already reflected value is taken as it is. */
  function StructValue(a: Arg): (r: Result<(Value, Place), Error>)
    ensures a.Reflected? ==> r == Ok((a.v, a.place))
    ensures a.Boxed? ==>
      var x := Unbox(a.v);
      && (r.Ok? <==> IsStructKind(x) || (x.VPtr? && IsStructKind(x.target)))
      && (r.Err? ==> r.error == InvalidSourceType)
      && (r.Ok? ==> IsStructKind(r.value.0) && !ReadOnly(r.value.1))
      && (r.Ok? ==> (r.value.1.addr <==> x.VPtr?))
  {
    match a
    case Reflected(v, p) => Ok((v, p))
    case Boxed(v) =>
      var x := Unbox(v);
      var (s, p) := if x.VPtr? then (x.target, Pointee) else (x, Detached);
      if IsStructKind(s) then Ok((s, p)) else Err(InvalidSourceType)
  }

  /** A struct handed over as it is, or through a pointer, comes back as
      that struct: detached in the first case, addressable in the second. */
  lemma StructValueBoxing(s: Value)
    requires IsStructKind(s)
    ensures StructValue(Boxed(s)) == Ok((s, Detached))
    ensures StructValue(Boxed(VIface(s))) == Ok((s, Detached))
    ensures StructValue(Boxed(VPtr(TypeOf(s), s))) == Ok((s, Pointee))
  {
  }

  // ---------------------------------------------------------------------------
  // Emptiness

  /** Zero length for strings, slices, maps and arrays; false; numeric zero;
      nil pointers and interfaces; the zero time; the absent value. Every
      other struct counts as non-empty. */
  predicate IsEmptyValue(v: Value) {
    match v
    case VInvalid => true
    case VString(s) => |s| == 0
    case VSlice(_, items) => |items| == 0
    case VArray(_, items) => |items| == 0
    case VMap(_, _, es) => |es| == 0
    case VBool(b) => !b
    case VInt(_, i) => i == 0
    case VUint(_, n) => n == 0
    case VIface(d) => d == VInvalid
    case VPtr(_, x) => x == VInvalid
    case VTime(t) => t == 0
    case VStruct(_, _, _) => false
    case VKey(_, _, _, _) => false
  }

  /** Apart from arrays and structs, a well-formed value is empty exactly
      when it is the zero value of its type. */
  lemma EmptyIsZero(v: Value)
    requires WellFormed(v) && !v.VArray? && !v.VStruct? && !v.VKey?
    ensures IsEmptyValue(v) <==> v == Zero(TypeOf(v))
  {
  }

  /** An array is empty only when its type has length zero, so the zero
      value of a longer array type is not empty. */
  lemma EmptyArray(e: Type, n: nat)
    ensures IsEmptyValue(Zero(TArray(n, e))) <==> n == 0
  {
  }

  // ---------------------------------------------------------------------------
  // Lookup

  /** Position of the first field called `name`. */
  function FieldIndex(fs: seq<Field>, name: string): (r: Option<nat>)
    ensures r.None? <==> forall j :: 0 <= j < |fs| ==> fs[j].name != name
    ensures r.Some? ==> r.value < |fs| && fs[r.value].name == name
    ensures r.Some? ==> forall j :: 0 <= j < r.value ==> fs[j].name != name
  {
    if |fs| == 0 then None
    else if fs[0].name == name then Some(0)
    else
      match FieldIndex(fs[1..], name)
      case None => None
      case Some(j) => Some(j + 1)
  }

  /** The field called `name` of a struct at place `p`, with its own place;
      a missing field is an error. The retry through a pointer to the struct
      sees the same fields. */
  function GetField(v: Value, p: Place, name: string): (r: Result<(Value, Place), Error>)
    ensures r.Ok? <==> exists j :: 0 <= j < |FieldsOf(v)| && FieldsOf(v)[j].name == name
    ensures r.Err? ==> r.error == FieldNotFound(name)
    ensures r.Ok? ==> var fs := FieldsOf(v);
      exists j :: 0 <= j < |fs| && fs[j].name == name && r.value == (At(ValsOf(v), j), FieldPlace(p, fs[j]))
  {
    match FieldIndex(FieldsOf(v), name)
    case None => Err(FieldNotFound(name))
    case Some(j) => Ok((At(ValsOf(v), j), FieldPlace(p, FieldsOf(v)[j])))
  }

  const NamespaceMethod := "Namespace"
  const SetNameMethod := "SetName"
  const ValueMethod := "Value"
  const DigestMethod := "Digest"

  /** The key's accessors have pointer receivers: they are found on an
      addressable key and on nothing else. The result is that of calling the
      accessor: the namespace, the set name, the digest as a byte slice, and
      for the user key the object of the returned value (absent when the
      returned value is nil). */
  function GetMethod(v: Value, p: Place, name: string): (r: Result<Value, Error>)
    ensures r.Ok? <==>
      v.VKey? && p.addr && name in {NamespaceMethod, SetNameMethod, ValueMethod, DigestMethod}
    ensures r.Err? ==> r.error == MethodNotFound(name)
    ensures r.Ok? && name == NamespaceMethod ==> r.value == VString(v.namespace)
    ensures r.Ok? && name == SetNameMethod ==> r.value == VString(v.setName)
    ensures r.Ok? && name == DigestMethod ==> r.value == VSlice(TUint(Uint8), ByteValues(v.digest))
    ensures r.Ok? && name == ValueMethod ==>
      r.value == (if v.userKey.None? then VInvalid else VIface(v.userKey.value))
  {
    if !(v.VKey? && p.addr) then Err(MethodNotFound(name))
    else if name == NamespaceMethod then Ok(VString(v.namespace))
    else if name == SetNameMethod then Ok(VString(v.setName))
    else if name == DigestMethod then Ok(VSlice(TUint(Uint8), ByteValues(v.digest)))
    else if name == ValueMethod then
      Ok(if v.userKey.None? then VInvalid else VIface(v.userKey.value))
    else Err(MethodNotFound(name))
  }

  // ---------------------------------------------------------------------------
  // Conversion

  /** The parser of RFC 3339 date-time text, a library call: it yields an
      instant or fails. */
  type TimeParser = string -> Option<int>

  /** No two entries of an association list share a key, as in a map. */
  predicate UniqueKeys(es: seq<(Value, Value)>) {
    forall i, j :: 0 <= i < j < |es| ==> es[i].0 != es[j].0
  }

  /** Looks a converted key up in an association list and overwrites its
      value, or appends a new entry. */
  function MapPut(es: seq<(Value, Value)>, k: Value, v: Value): (r: seq<(Value, Value)>)
    ensures (k, v) in r
    ensures forall e :: e in r ==> e == (k, v) || e in es
    ensures forall e :: e in es && e.0 != k ==> e in r
  {
    if |es| == 0 then [(k, v)]
    else if es[0].0 == k then
      var r := [(k, v)] + es[1..];
      assert forall e :: e in es ==> e == es[0] || e in es[1..];
      r
    else
      var rest := MapPut(es[1..], k, v);
      assert forall e :: e in es ==> e == es[0] || e in es[1..];
      [es[0]] + rest
  }

  /** On a list with distinct keys, MapPut is a map store: the keys stay
      distinct and the key has only the new value. */
  lemma {:induction false} MapPutOverwrites(es: seq<(Value, Value)>, k: Value, v: Value)
    requires UniqueKeys(es)
    ensures UniqueKeys(MapPut(es, k, v))
    ensures forall e :: e in MapPut(es, k, v) && e.0 == k ==> e == (k, v)
  {
    if |es| > 0 {
      var tail := es[1..];
      UniqueTail(es);
      if es[0].0 == k {
        PrependUnique((k, v), tail);
      } else {
        MapPutOverwrites(tail, k, v);
        PrependUnique(es[0], MapPut(tail, k, v));
      }
    }
  }

  /** The keys after the first entry of a list with distinct keys are
      distinct, and differ from the first. */
  lemma UniqueTail(es: seq<(Value, Value)>)
    requires UniqueKeys(es) && |es| > 0
    ensures UniqueKeys(es[1..])
    ensures forall e :: e in es[1..] ==> e.0 != es[0].0
  {
    var tail := es[1..];
    forall i, j | 0 <= i < j < |tail| ensures tail[i].0 != tail[j].0 {
      assert tail[i] == es[i + 1] && tail[j] == es[j + 1];
    }
  }

  /** An entry put before a list with distinct keys, none of them its own,
      keeps the keys distinct. */
  lemma PrependUnique(e0: (Value, Value), rest: seq<(Value, Value)>)
    requires UniqueKeys(rest)
    requires forall e :: e in rest ==> e.0 != e0.0
    ensures UniqueKeys([e0] + rest)
  {
    var r := [e0] + rest;
    forall i, j | 0 <= i < j < |r| ensures r[i].0 != r[j].0 {
      assert r[j] == rest[j - 1];
      if i > 0 {
        assert r[i] == rest[i - 1];
      }
    }
  }

  /** Converts `src` to a value of type `t`: an interface is unwrapped;
      nothing, or a nil pointer, converts to the zero value of `t`; a non-nil
      pointer is dereferenced once; a value already of type `t` is returned
      as it is; anything else is left to the target kind. */
  function Convert(src: Value, t: Type, parseTime: TimeParser): (r: Result<Value, Error>)
    ensures Unbox(src) == VInvalid || IsNilPtr(Unbox(src)) ==> r == Ok(Zero(t))
    ensures var s0 := Unbox(src);
      s0 != VInvalid && !IsNilPtr(s0) && TypeOf(Deref(s0)) == t ==> r == Ok(Deref(s0))
    ensures r.Err? && (t.TUint? || t.TArray? || t.TAny?) ==> r.error == UnsupportedTarget(t)
    decreases t, 3, 0
  {
    var s0 := Unbox(src);
    if s0 == VInvalid || IsNilPtr(s0) then Ok(Zero(t))
    else
      var s := Deref(s0);
      if TypeOf(s) == t then Ok(s) else ConvertKind(src, s, t, parseTime)
  }

  /** Conversion by target kind of `s`, the dereferenced source `src`, to a
      different type `t`: slices and maps element by element, structs by
      copying fields, pointers to the converted value, scalars by the
      scalar table; unsigned integers, arrays and interfaces are never
      targets. */
  function ConvertKind(src: Value, s: Value, t: Type, parseTime: TimeParser): (r: Result<Value, Error>)
    requires s != VInvalid
    ensures r.Err? && (t.TUint? || t.TArray? || t.TAny?) ==> r.error == UnsupportedTarget(t)
    decreases t, 2, 0
  {
    match t
    case TSlice(e) =>
      if !s.VSlice? then Err(CannotConvert(TypeOf(s), t))
      else
        var items :- ConvertItems(s.items, t, 0, parseTime);
        Ok(VSlice(e, items))
    case TMap(kt, vt) =>
      if !s.VMap? then Err(CannotConvert(TypeOf(s), t))
      else
        var es :- ConvertEntries(s.entries, t, 0, [], parseTime);
        Ok(VMap(kt, vt, es))
    case TStruct(_, _) =>
      (match CopyStruct(s, t, parseTime)
       case Err(e) => Err(NestedStruct(e))
       case Ok(c) => Ok(c))
    case TKey =>
      (match CopyStruct(s, t, parseTime)
       case Err(e) => Err(NestedStruct(e))
       case Ok(c) => Ok(c))
    case TPtr(e) =>
      var c :- Convert(src, e, parseTime);
      Ok(VPtr(e, c))
    case TString => ConvertScalar(s, t, parseTime)
    case TInt(_) => ConvertScalar(s, t, parseTime)
    case TBool => ConvertScalar(s, t, parseTime)
    case TTime => ConvertScalar(s, t, parseTime)
    case _ => Err(UnsupportedTarget(t))
  }

  /** The scalar table: text from signed integers (base 10) and booleans;
      signed integers from signed integers (keeping the low bits) and from
      64-bit decimal text; booleans from text and from signed integers
      (non-zero is true); a time from RFC 3339 text. */
  function ConvertScalar(s: Value, t: Type, parseTime: TimeParser): (r: Result<Value, Error>)
    requires s != VInvalid
    requires t.TString? || t.TInt? || t.TBool? || t.TTime?
    ensures r.Ok? ==> HasType(r.value, t)
  {
    var st := TypeOf(s);
    match t
    case TString =>
      (match s
       case VInt(_, i) => Ok(VString(FormatInt(i)))
       case VBool(b) => Ok(VString(FormatBool(b)))
       case _ => Err(CannotConvert(st, t)))
    case TInt(k) =>
      (match s
       case VInt(_, i) => Ok(VInt(k, WrapInt(k, i)))
       case VString(x) =>
         (match ParseInt(x)
          case None => Err(BadIntText(x))
          case Some(i) => Ok(VInt(k, WrapInt(k, i))))
       case _ => Err(CannotConvert(st, t)))
    case TBool =>
      (match s
       case VString(x) =>
         (match ParseBool(x)
          case None => Err(BadBoolText(x))
          case Some(b) => Ok(VBool(b)))
       case VInt(_, i) => Ok(VBool(i != 0))
       case _ => Err(CannotConvert(st, t)))
    case TTime =>
      (match s
       case VString(x) =>
         (match parseTime(x)
          case None => Err(BadTimeText(x))
          case Some(n) => Ok(VTime(n)))
       case _ => Err(CannotConvert(st, t)))
  }

  /** Items `i..` of a slice converted to the element type of `t`; the
      first failure is reported with its index. */
  function ConvertItems(items: seq<Value>, t: Type, i: nat, parseTime: TimeParser)
    : (r: Result<seq<Value>, Error>)
    requires t.TSlice? && i <= |items|
    ensures r.Ok? ==> |r.value| == |items| - i
    ensures r.Err? ==>
      && r.error.SliceElement? && i <= r.error.index < |items|
      && Convert(items[r.error.index], t.elem, parseTime) == Err(r.error.cause)
      && forall k :: i <= k < r.error.index ==> Convert(items[k], t.elem, parseTime).Ok?
    decreases t, 1, |items| - i
  {
    if i == |items| then Ok([])
    else
      match Convert(items[i], t.elem, parseTime)
      case Err(e) => Err(SliceElement(i, e))
      case Ok(c) =>
        var rest :- ConvertItems(items, t, i + 1, parseTime);
        Ok([c] + rest)
  }

  /** Entries `i..` of a map converted key first, then value, to the key and
      value types of `t`, and put into `acc` (a later key equal to an earlier
      converted key overwrites it). */
  function ConvertEntries(es: seq<(Value, Value)>, t: Type, i: nat, acc: seq<(Value, Value)>,
                          parseTime: TimeParser)
    : (r: Result<seq<(Value, Value)>, Error>)
    requires t.TMap? && i <= |es|
    ensures r.Err? ==> r.error.MapKey? || r.error.MapValue?
    decreases t, 1, |es| - i
  {
    if i == |es| then Ok(acc)
    else
      var (k, v) :- ConvertEntry(es[i], t, parseTime);
      ConvertEntries(es, t, i + 1, MapPut(acc, k, v), parseTime)
  }

  /** One map entry converted, key first, then value. */
  function ConvertEntry(e: (Value, Value), t: Type, parseTime: TimeParser): (r: Result<(Value, Value), Error>)
    requires t.TMap?
    ensures r.Err? ==> r.error.MapKey? || r.error.MapValue?
    decreases t, 0, 0
  {
    match Convert(e.0, t.key, parseTime)
    case Err(err) => Err(MapKey(err))
    case Ok(k) =>
      match Convert(e.1, t.val, parseTime)
      case Err(err) => Err(MapValue(err))
      case Ok(v) => Ok((k, v))
  }

  /** The exported fields of a struct type; the key's fields are all
      non-exported. */
  function TargetFields(t: Type): seq<Field> {
    if t.TStruct? then t.fields else []
  }

  /** Copies struct `s` into a fresh value of struct type `t`: each source
      field is matched by its tag name, or its Go name when the tag names
      none, against the fields of `t`; missing and non-exported targets are
      skipped, the rest receive the converted source field. */
  function CopyStruct(s: Value, t: Type, parseTime: TimeParser): (r: Result<Value, Error>)
    requires t.TStruct? || t.TKey?
    ensures !IsStructKind(s) ==> r == Err(NotStructs)
    decreases t, 1, 0
  {
    if !IsStructKind(s) then Err(NotStructs)
    else
      var init := if t.TStruct? then Zero(t).vals else [];
      var vals :- CopyFields(FieldsOf(s), ValsOf(s), t, 0, init, parseTime);
      if t.TKey? then Ok(Zero(t)) else Ok(VStruct(t.name, t.fields, vals))
  }

  /** The name a source field is copied under: the name its tag gives, or
      its Go name when the tag gives none. */
  function CopyName(f: Field): (r: Result<string, Error>)
    ensures r.Err? <==> ParseTag(f.tag).Err?
    ensures r.Ok? ==> r.value == (if ParseTag(f.tag).value.name == "" then f.name else ParseTag(f.tag).value.name)
  {
    var tag :- ParseTag(f.tag);
    Ok(if tag.name == "" then f.name else tag.name)
  }

  /** The copy name read off the tag's tokens: a field is copied under its
      last free-form token when that carries text, under `meta` when the tag
      is a bare `meta`, and under its Go name when the tag has only flags
      and empty tokens. A tag with a non-empty free-form token before
      another free-form token cannot be copied. */
  lemma CopyNameFromTag(f: Field)
    ensures CopyName(f).Ok? <==> NamesOk(NameTokens(Tokens(f.tag)))
    ensures CopyName(f).Err? ==> CopyName(f).error == InvalidTag(f.tag)
    ensures CopyName(f).Ok? ==>
      var n := LastName(NameTokens(Tokens(f.tag)));
      CopyName(f).value == (if n != "" then n else if MetaToken in Tokens(f.tag) then MetaToken else f.name)
  {
  }

  /** The copy loop over source fields `i..`, `acc` holding the target
      fields so far. */
  function CopyFields(sfs: seq<Field>, svals: seq<Value>, t: Type, i: nat, acc: seq<Value>,
                      parseTime: TimeParser)
    : (r: Result<seq<Value>, Error>)
    requires t.TStruct? || t.TKey?
    requires i <= |sfs| && |acc| == |TargetFields(t)|
    ensures r.Ok? ==> |r.value| == |acc|
    decreases t, 0, |sfs| - i
  {
    if i == |sfs| then Ok(acc)
    else
      var acc' :- CopyField(sfs[i], At(svals, i), t, acc, parseTime);
      CopyFields(sfs, svals, t, i + 1, acc', parseTime)
  }

  /** One source field copied into the target fields `acc`. */
  function CopyField(sf: Field, sv: Value, t: Type, acc: seq<Value>, parseTime: TimeParser)
    : (r: Result<seq<Value>, Error>)
    requires t.TStruct? || t.TKey?
    requires |acc| == |TargetFields(t)|
    ensures r.Ok? ==> |r.value| == |acc|
    decreases t, 0, 0
  {
    var name :- CopyName(sf);
    var tfs := TargetFields(t);
    match FieldIndex(tfs, name)
    case None => Ok(acc)
    case Some(j) =>
      if !IsExported(tfs[j].name) then Ok(acc)
      else if !IsExported(sf.name) then Err(Panic("reading a non-exported field"))
      else
        assert tfs[j] in t.fields;
        match Convert(sv, tfs[j].ty, parseTime)
        case Err(e) => Err(FieldConversion(name, e))
        case Ok(c) => Ok(acc[j := c])
  }

  // ---------------------------------------------------------------------------
  // Properties of the conversion

  /** Conversion looks through one interface and one pointer: two sources
      that lead to the same value convert alike, down to the pointer
      targets built from them. */
  lemma {:induction false} ConvertSeesThrough(a: Value, b: Value, t: Type, parseTime: TimeParser)
    requires Unbox(a) != VInvalid && !IsNilPtr(Unbox(a))
    requires Unbox(b) != VInvalid && !IsNilPtr(Unbox(b))
    requires Deref(Unbox(a)) == Deref(Unbox(b))
    ensures Convert(a, t, parseTime) == Convert(b, t, parseTime)
    decreases t
  {
    if t.TPtr? {
      ConvertSeesThrough(a, b, t.elem, parseTime);
    }
  }

  /** A converted slice holds, at each index, the conversion of the source
      item at that index. */
  lemma {:induction false} ConvertItemsElementwise(items: seq<Value>, t: Type, i: nat, parseTime: TimeParser)
    requires t.TSlice? && i <= |items|
    ensures var r := ConvertItems(items, t, i, parseTime);
      r.Ok? ==> forall j :: i <= j < |items| ==> Convert(items[j], t.elem, parseTime) == Ok(r.value[j - i])
    decreases |items| - i
  {
    var r := ConvertItems(items, t, i, parseTime);
    if i < |items| && r.Ok? {
      ConvertItemsElementwise(items, t, i + 1, parseTime);
      var rest := ConvertItems(items, t, i + 1, parseTime).value;
      assert r.value == [r.value[0]] + rest;
    }
  }

  /** Unwrapping and dereferencing a valid source that is neither absent
      nor nil gives a well-formed value. */
  lemma DerefWellFormed(src: Value)
    requires ValidSource(src)
    requires Unbox(src) != VInvalid && !IsNilPtr(Unbox(src))
    ensures WellFormed(Deref(Unbox(src)))
  {
    var s0 := Unbox(src);
    assert WellFormed(s0) by {
      if src.VIface? {
        assert HasType(src, TAny);
      }
    }
    if s0.VPtr? {
      assert HasType(s0, TPtr(s0.elemTy));
      HasTypeIsTypeOf(s0.target, s0.elemTy);
    }
  }

  /** The parts of a valid value are valid sources: struct fields, slice
      items, and map keys and values. */
  lemma PartsValid(v: Value)
    requires ValidSource(v)
    ensures forall j :: 0 <= j < |ValsOf(v)| ==> ValidSource(ValsOf(v)[j])
    ensures v.VSlice? ==> forall j :: 0 <= j < |v.items| ==> ValidSource(v.items[j])
    ensures v.VMap? ==> forall j :: 0 <= j < |v.entries| ==>
      ValidSource(v.entries[j].0) && ValidSource(v.entries[j].1)
  {
    match v
    case VStruct(_, fs, vals) =>
      forall j | 0 <= j < |vals| ensures ValidSource(vals[j]) {
        HasTypeIsTypeOf(vals[j], fs[j].ty);
      }
    case VSlice(e, items) =>
      forall j | 0 <= j < |items| ensures ValidSource(items[j]) {
        HasTypeIsTypeOf(items[j], e);
      }
    case VMap(kt, vt, es) =>
      forall j | 0 <= j < |es| ensures ValidSource(es[j].0) && ValidSource(es[j].1) {
        HasTypeIsTypeOf(es[j].0, kt);
        HasTypeIsTypeOf(es[j].1, vt);
      }
    case _ =>
  }

  /** Conversion of a valid source yields a well-typed value of the target
      type. */
  lemma {:induction false} ConvertHasType(src: Value, t: Type, parseTime: TimeParser)
    requires ValidSource(src)
    ensures var r := Convert(src, t, parseTime); r.Ok? ==> HasType(r.value, t)
    decreases t, 3, 0
  {
    var s0 := Unbox(src);
    if s0 == VInvalid || IsNilPtr(s0) {
      ZeroHasType(t);
    } else {
      var s := Deref(s0);
      DerefWellFormed(src);
      if TypeOf(s) == t {
        HasTypeIsTypeOf(s, t);
      } else {
        ConvertKindHasType(src, s, t, parseTime);
      }
    }
  }

  lemma {:induction false} ConvertKindHasType(src: Value, s: Value, t: Type, parseTime: TimeParser)
    requires ValidSource(src) && WellFormed(s)
    ensures var r := ConvertKind(src, s, t, parseTime); r.Ok? ==> HasType(r.value, t)
    decreases t, 2, 1
  {
    if t.TSlice? {
      SliceKindHasType(src, s, t, parseTime);
    } else if t.TMap? {
      MapKindHasType(src, s, t, parseTime);
    } else if t.TStruct? || t.TKey? {
      StructKindHasType(src, s, t, parseTime);
    } else if t.TPtr? {
      PtrKindHasType(src, s, t, parseTime);
    } else {
      ScalarKindHasType(src, s, t, parseTime);
    }
  }

  lemma {:induction false} StructKindHasType(src: Value, s: Value, t: Type, parseTime: TimeParser)
    requires (t.TStruct? || t.TKey?) && s != VInvalid && WellFormed(s)
    ensures var r := ConvertKind(src, s, t, parseTime); r.Ok? ==> HasType(r.value, t)
    decreases t, 2, 0
  {
    PartsValid(s);
    CopyStructHasType(s, t, parseTime);
  }

  lemma ScalarKindHasType(src: Value, s: Value, t: Type, parseTime: TimeParser)
    requires !(t.TSlice? || t.TMap? || t.TStruct? || t.TKey? || t.TPtr?) && s != VInvalid
    ensures var r := ConvertKind(src, s, t, parseTime); r.Ok? ==> HasType(r.value, t)
  {
  }

  lemma {:induction false} SliceKindHasType(src: Value, s: Value, t: Type, parseTime: TimeParser)
    requires t.TSlice? && s != VInvalid && WellFormed(s)
    ensures var r := ConvertKind(src, s, t, parseTime); r.Ok? ==> HasType(r.value, t)
    decreases t, 2, 0
  {
    if s.VSlice? {
      PartsValid(s);
      ItemsHaveType(s.items, t, 0, parseTime);
    }
  }

  lemma {:induction false} MapKindHasType(src: Value, s: Value, t: Type, parseTime: TimeParser)
    requires t.TMap? && s != VInvalid && WellFormed(s)
    ensures var r := ConvertKind(src, s, t, parseTime); r.Ok? ==> HasType(r.value, t)
    decreases t, 2, 0
  {
    if s.VMap? {
      MapEntriesHaveType(s, t, parseTime);
    }
  }

  lemma {:induction false} MapEntriesHaveType(s: Value, t: Type, parseTime: TimeParser)
    requires t.TMap? && s.VMap? && WellFormed(s)
    ensures var r := ConvertEntries(s.entries, t, 0, [], parseTime);
      r.Ok? ==> forall e :: e in r.value ==> HasType(e.0, t.key) && HasType(e.1, t.val)
    decreases t, 1, |s.entries| + 1
  {
    PartsValid(s);
    EntriesHaveType(s.entries, t, 0, [], parseTime);
  }

  lemma {:induction false} PtrKindHasType(src: Value, s: Value, t: Type, parseTime: TimeParser)
    requires t.TPtr? && s != VInvalid && ValidSource(src)
    ensures var r := ConvertKind(src, s, t, parseTime); r.Ok? ==> HasType(r.value, t)
    decreases t, 2, 0
  {
    ConvertHasType(src, t.elem, parseTime);
  }

  lemma {:induction false} ItemsHaveType(items: seq<Value>, t: Type, i: nat, parseTime: TimeParser)
    requires t.TSlice? && i <= |items|
    requires forall j :: i <= j < |items| ==> ValidSource(items[j])
    ensures var r := ConvertItems(items, t, i, parseTime);
      r.Ok? ==> forall j :: 0 <= j < |r.value| ==> HasType(r.value[j], t.elem)
    decreases t, 1, |items| - i
  {
    var r := ConvertItems(items, t, i, parseTime);
    if i < |items| && r.Ok? {
      ConvertHasType(items[i], t.elem, parseTime);
      ItemsHaveType(items, t, i + 1, parseTime);
    }
  }

  lemma {:induction false} EntriesHaveType(es: seq<(Value, Value)>, t: Type, i: nat,
                                           acc: seq<(Value, Value)>, parseTime: TimeParser)
    requires t.TMap? && i <= |es|
    requires forall j :: i <= j < |es| ==> ValidSource(es[j].0) && ValidSource(es[j].1)
    requires forall e :: e in acc ==> HasType(e.0, t.key) && HasType(e.1, t.val)
    ensures var r := ConvertEntries(es, t, i, acc, parseTime);
      r.Ok? ==> forall e :: e in r.value ==> HasType(e.0, t.key) && HasType(e.1, t.val)
    decreases t, 1, |es| - i
  {
    var r := ConvertEntries(es, t, i, acc, parseTime);
    if i < |es| && r.Ok? {
      var (k, v) := ConvertEntry(es[i], t, parseTime).value;
      assert r == ConvertEntries(es, t, i + 1, MapPut(acc, k, v), parseTime);
      EntryHasType(es[i], t, parseTime);
      MapPutHasType(acc, k, v, t);
      EntriesHaveType(es, t, i + 1, MapPut(acc, k, v), parseTime);
    }
  }

  lemma {:induction false} EntryHasType(e: (Value, Value), t: Type, parseTime: TimeParser)
    requires t.TMap? && ValidSource(e.0) && ValidSource(e.1)
    ensures var r := ConvertEntry(e, t, parseTime); r.Ok? ==> HasType(r.value.0, t.key) && HasType(r.value.1, t.val)
    decreases t, 0, 0
  {
    ConvertHasType(e.0, t.key, parseTime);
    ConvertHasType(e.1, t.val, parseTime);
  }

  lemma MapPutHasType(acc: seq<(Value, Value)>, k: Value, v: Value, t: Type)
    requires t.TMap? && HasType(k, t.key) && HasType(v, t.val)
    requires forall e :: e in acc ==> HasType(e.0, t.key) && HasType(e.1, t.val)
    ensures forall e :: e in MapPut(acc, k, v) ==> HasType(e.0, t.key) && HasType(e.1, t.val)
  {
  }

  lemma {:induction false} CopyStructHasType(s: Value, t: Type, parseTime: TimeParser)
    requires t.TStruct? || t.TKey?
    requires ValidSource(s)
    ensures var r := CopyStruct(s, t, parseTime); r.Ok? ==> HasType(r.value, t)
    decreases t, 1, 0
  {
    ZeroHasType(t);
    if IsStructKind(s) && t.TStruct? {
      PartsValid(s);
      var init := Zero(t).vals;
      CopyFieldsHaveType(FieldsOf(s), ValsOf(s), t, 0, init, parseTime);
    }
  }

  lemma {:induction false} CopyFieldsHaveType(sfs: seq<Field>, svals: seq<Value>, t: Type, i: nat,
                                              acc: seq<Value>, parseTime: TimeParser)
    requires t.TStruct? || t.TKey?
    requires i <= |sfs| && |acc| == |TargetFields(t)|
    requires forall j :: 0 <= j < |acc| ==> HasType(acc[j], TargetFields(t)[j].ty)
    requires forall j :: 0 <= j < |svals| ==> ValidSource(svals[j])
    ensures var r := CopyFields(sfs, svals, t, i, acc, parseTime);
      r.Ok? ==> forall j :: 0 <= j < |acc| ==> HasType(r.value[j], TargetFields(t)[j].ty)
    decreases t, 0, |sfs| - i
  {
    if i < |sfs| {
      var c := CopyField(sfs[i], At(svals, i), t, acc, parseTime);
      if c.Ok? {
        CopyFieldHasType(sfs[i], At(svals, i), t, acc, parseTime);
        CopyFieldsHaveType(sfs, svals, t, i + 1, c.value, parseTime);
      }
    }
  }

  lemma {:induction false} CopyFieldHasType(sf: Field, sv: Value, t: Type, acc: seq<Value>,
                                            parseTime: TimeParser)
    requires t.TStruct? || t.TKey?
    requires |acc| == |TargetFields(t)|
    requires forall j :: 0 <= j < |acc| ==> HasType(acc[j], TargetFields(t)[j].ty)
    requires ValidSource(sv)
    ensures var r := CopyField(sf, sv, t, acc, parseTime);
      r.Ok? ==> forall j :: 0 <= j < |acc| ==> HasType(r.value[j], TargetFields(t)[j].ty)
    decreases t, 0, 0
  {
    var r := CopyField(sf, sv, t, acc, parseTime);
    if r.Ok? {
      var name := CopyName(sf).value;
      var tfs := TargetFields(t);
      var fi := FieldIndex(tfs, name);
      if fi.Some? && IsExported(tfs[fi.value].name) {
        var j := fi.value;
        assert tfs[j] in t.fields;
        ConvertHasType(sv, tfs[j].ty, parseTime);
        var c := Convert(sv, tfs[j].ty, parseTime).value;
        assert r.value == acc[j := c];
        UpdateHasType(acc, t, j, c);
      } else {
        assert r.value == acc;
      }
    }
  }

  lemma UpdateHasType(acc: seq<Value>, t: Type, j: nat, c: Value)
    requires |acc| == |TargetFields(t)| && j < |acc| && HasType(c, TargetFields(t)[j].ty)
    requires forall k :: 0 <= k < |acc| ==> HasType(acc[k], TargetFields(t)[k].ty)
    ensures forall k :: 0 <= k < |acc| ==> HasType(acc[j := c][k], TargetFields(t)[k].ty)
  {
  }

  /** Every signed integer survives a trip through its text: converting to
      a string and back to the same integer type gives the value back. */
  lemma IntTextRoundTrip(k: IntKind, i: int, parseTime: TimeParser)
    requires InIntRange(k, i)
    ensures Convert(VInt(k, i), TString, parseTime) == Ok(VString(FormatInt(i)))
    ensures Convert(VString(FormatInt(i)), TInt(k), parseTime) == Ok(VInt(k, i))
  {
    IntToText(k, i, parseTime);
    ParseFormatInt(i);
    TextToInt(FormatInt(i), k, parseTime);
  }

  /** A signed integer converts to its decimal text. */
  lemma IntToText(k: IntKind, i: int, parseTime: TimeParser)
    ensures Convert(VInt(k, i), TString, parseTime) == Ok(VString(FormatInt(i)))
  {
    assert Convert(VInt(k, i), TString, parseTime) == ConvertScalar(VInt(k, i), TString, parseTime);
  }

  /** Every boolean survives a trip through its text. */
  lemma BoolTextRoundTrip(b: bool, parseTime: TimeParser)
    ensures Convert(VBool(b), TString, parseTime) == Ok(VString(FormatBool(b)))
    ensures Convert(VString(FormatBool(b)), TBool, parseTime) == Ok(VBool(b))
  {
    assert ConvertKind(VString(FormatBool(b)), VString(FormatBool(b)), TBool, parseTime)
        == ConvertScalar(VString(FormatBool(b)), TBool, parseTime);
  }

  /** Text converts to a signed integer exactly when it is 64-bit decimal
      text, and the result keeps the low bits of the parsed number. */
  lemma TextToInt(x: string, k: IntKind, parseTime: TimeParser)
    ensures var r := Convert(VString(x), TInt(k), parseTime);
      && (r.Ok? <==> ParseInt(x).Some?)
      && (r.Ok? ==> r.value == VInt(k, WrapInt(k, ParseInt(x).value)))
      && (r.Err? ==> r.error == BadIntText(x))
  {
    assert Convert(VString(x), TInt(k), parseTime) == ConvertScalar(VString(x), TInt(k), parseTime);
  }

  /** A signed integer converts to a boolean by comparison with zero. */
  lemma IntToBool(k: IntKind, i: int, parseTime: TimeParser)
    ensures Convert(VInt(k, i), TBool, parseTime) == Ok(VBool(i != 0))
  {
    assert Convert(VInt(k, i), TBool, parseTime) == ConvertScalar(VInt(k, i), TBool, parseTime);
  }

  /** Unsigned integers are not converted to text, signed integers or
      booleans. */
  lemma UnsignedNotConverted(k: UintKind, n: int, t: Type, parseTime: TimeParser)
    requires t == TString || t.TInt? || t == TBool
    ensures Convert(VUint(k, n), t, parseTime) == Err(CannotConvert(TUint(k), t))
  {
    assert Convert(VUint(k, n), t, parseTime) == ConvertScalar(VUint(k, n), t, parseTime);
  }

  /** Unsigned integers, arrays and interfaces are targets only of values
      that already have that type (or of nothing): any other source is
      rejected. */
  lemma UnsupportedTargets(src: Value, t: Type, parseTime: TimeParser)
    requires t.TUint? || t.TArray? || t.TAny?
    requires Unbox(src) != VInvalid && !IsNilPtr(Unbox(src))
    requires TypeOf(Deref(Unbox(src))) != t
    ensures Convert(src, t, parseTime) == Err(UnsupportedTarget(t))
  {
  }

  /** A well-formed value that is not an interface converts to its own
      type as itself; a pointer is rebuilt around its unchanged target. */
  lemma ConvertToOwnType(v: Value, parseTime: TimeParser)
    requires WellFormed(v) && !v.VIface?
    ensures Convert(v, TypeOf(v), parseTime) == Ok(v)
  {
    if v.VPtr? && v.target != VInvalid {
      HasTypeIsTypeOf(v.target, v.elemTy);
      assert TypeOf(v.target) == v.elemTy != TPtr(v.elemTy);
      assert Convert(v, v.elemTy, parseTime) == Ok(v.target);
    }
  }

  /** When the source is not already of pointer type `TPtr(e)`, the result
      is a fresh non-nil pointer to the conversion of the same source to
      `e`, and fails exactly when that conversion does. */
  lemma ConvertToPointer(src: Value, e: Type, parseTime: TimeParser)
    requires Unbox(src) != VInvalid && !IsNilPtr(Unbox(src))
    requires TypeOf(Deref(Unbox(src))) != TPtr(e)
    ensures var r := Convert(src, TPtr(e), parseTime); var c := Convert(src, e, parseTime);
      && (r.Ok? <==> c.Ok?)
      && (r.Ok? ==> r.value == VPtr(e, c.value) && c.value != VInvalid)
  {
    var c := Convert(src, e, parseTime);
    if c.Ok? {
      ConvertNeverAbsent(src, e, parseTime);
    }
  }

  /** Conversion never produces the absent value. */
  lemma ConvertNeverAbsent(src: Value, t: Type, parseTime: TimeParser)
    ensures var r := Convert(src, t, parseTime); r.Ok? ==> r.value != VInvalid
  {
    var s0 := Unbox(src);
    if s0 != VInvalid && !IsNilPtr(s0) {
      var s := Deref(s0);
      if TypeOf(s) != t {
        var r := ConvertKind(src, s, t, parseTime);
        if r.Ok? && (t.TStruct? || t.TKey?) {
          assert r.value == CopyStruct(s, t, parseTime).value;
        }
      }
    }
  }

  /** A map target needs a map source, and the result is a map of the
      target's key and value types with no key twice. */
  lemma ConvertToMap(src: Value, kt: Type, vt: Type, parseTime: TimeParser)
    requires Unbox(src) != VInvalid && !IsNilPtr(Unbox(src))
    requires TypeOf(Deref(Unbox(src))) != TMap(kt, vt)
    ensures var s := Deref(Unbox(src)); var r := Convert(src, TMap(kt, vt), parseTime);
      && (!s.VMap? ==> r == Err(CannotConvert(TypeOf(s), TMap(kt, vt))))
      && (r.Err? && s.VMap? ==> r.error.MapKey? || r.error.MapValue?)
      && (r.Ok? ==> r.value.VMap? && r.value.keyTy == kt && r.value.valTy == vt && UniqueKeys(r.value.entries))
  {
    var s := Deref(Unbox(src));
    if s.VMap? {
      EntriesUnique(s.entries, TMap(kt, vt), 0, [], parseTime);
    }
  }

  /** Entries put one by one keep their keys unique. */
  lemma {:induction false} EntriesUnique(es: seq<(Value, Value)>, t: Type, i: nat, acc: seq<(Value, Value)>,
                                         parseTime: TimeParser)
    requires t.TMap? && i <= |es| && UniqueKeys(acc)
    ensures var r := ConvertEntries(es, t, i, acc, parseTime); r.Ok? ==> UniqueKeys(r.value)
    decreases |es| - i
  {
    if i < |es| {
      var c := ConvertEntry(es[i], t, parseTime);
      if c.Ok? {
        MapPutOverwrites(acc, c.value.0, c.value.1);
        EntriesUnique(es, t, i + 1, MapPut(acc, c.value.0, c.value.1), parseTime);
      }
    }
  }

  /** A slice target needs a slice source, and the result has the source's
      length. */
  lemma ConvertToSlice(src: Value, e: Type, parseTime: TimeParser)
    requires Unbox(src) != VInvalid && !IsNilPtr(Unbox(src))
    requires TypeOf(Deref(Unbox(src))) != TSlice(e)
    ensures var s := Deref(Unbox(src)); var r := Convert(src, TSlice(e), parseTime);
      && (!s.VSlice? ==> r == Err(CannotConvert(TypeOf(s), TSlice(e))))
      && (s.VSlice? ==> (r.Ok? <==> ConvertItems(s.items, TSlice(e), 0, parseTime).Ok?))
      && (s.VSlice? && r.Ok? ==> r.value == VSlice(e, ConvertItems(s.items, TSlice(e), 0, parseTime).value))
      && (s.VSlice? && r.Err? ==> r.error == ConvertItems(s.items, TSlice(e), 0, parseTime).error)
      && (s.VSlice? && r.Ok? ==> |r.value.items| == |s.items|)
  {
  }
}
