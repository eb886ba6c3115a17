/** Decoding a record into a struct. The record is any struct: a field
    called `BatchRecord` (a struct) is decoded in turn, a field `Record` (a
    struct) supplies generation and expiration and is decoded in turn, a
    field `Key` (the client key) supplies namespace, set name, user key and
    digest, a map field `Bins` supplies the bins, and at the top level a
    `uint32` field `Generation` or `Expiration` supplies the record's own
    counters. Each supply is a separate pass over the target struct. */
module Decoder {
  import opened Wrappers
  import opened Values
  import opened Errors
  import opened Tags
  import opened Reflect
  import opened Traverse

  /** The field names a record is recognised by. */
  const BatchRecordField := "BatchRecord"
  const RecordField := "Record"
  const KeyField := "Key"
  const BinsField := "Bins"
  const GenerationField := "Generation"
  const ExpirationField := "Expiration"

  /** The caller's value after a pass changed its struct into `s`: a pointer
      now points at `s`; a struct handed over by value is the caller's own
      copy, which no pass can change. */
  function Rebox(v: Value, s: Value): Value {
    match v
    case VPtr(e, _) => VPtr(e, s)
    case VIface(VPtr(e, _)) => VIface(VPtr(e, s))
    case _ => v
  }

  /** Runs a pass over the struct `v` is or points to. */
  function Pass(v: Value, act: Action): (r: Result<Value, Error>)
    ensures var x := Unbox(v);
      !(IsStructKind(x) || (x.VPtr? && IsStructKind(x.target))) ==> r == Err(InvalidSourceType)
    ensures r.Ok? && !Unbox(v).VPtr? ==> r.value == v
  {
    var (s, p) :- StructValue(Boxed(v));
    var s' :- Walk(s, p, act);
    Ok(Rebox(v, s'))
  }

  // ---------------------------------------------------------------------------
  // Bins

  /** The value of the first entry whose key holds the text `name`. */
  function Lookup(es: seq<(Value, Value)>, name: string): (r: Option<Value>)
    ensures r.None? <==> forall j :: 0 <= j < |es| ==> Unbox(es[j].0) != VString(name)
    ensures r.Some? ==> exists j :: 0 <= j < |es| && Unbox(es[j].0) == VString(name) && r.value == es[j].1
  {
    if |es| == 0 then None
    else if Unbox(es[0].0) == VString(name) then Some(es[0].1)
    else
      var r := Lookup(es[1..], name);
      assert forall j :: 1 <= j < |es| ==> es[j] == es[1..][j - 1];
      r
  }

  /** Looks bin `name` up in map `m`; the text key must be assignable to
      the map's key type. */
  function MapIndex(m: Value, name: string): (r: Result<Option<Value>, Error>)
    requires m.VMap?
    ensures r.Err? <==> !(m.keyTy == TString || m.keyTy == TAny)
    ensures r.Ok? ==> r.value == Lookup(m.entries, name)
  {
    if !(m.keyTy == TString || m.keyTy == TAny) then Err(Panic("MapIndex: text key not assignable to the key type"))
    else Ok(Lookup(m.entries, name))
  }

  /** The bin a field takes: tagged fields with a name, whose bin exists. */
  function BinFor(bins: Value, l: Leaf): Result<Option<Value>, Error>
    requires bins.VMap?
  {
    if l.field.tag == "" then Ok(None)
    else
      var tag :- ParseTag(l.field.tag);
      if tag.name == "" then Ok(None) else MapIndex(bins, tag.name)
  }

  /** On bins keyed by text (the client's `BinMap`) or by `any`, looking a
      field's bin up never panics: the only failure is a malformed tag, and
      a bin found is the value of an entry keyed by the field's bin name. */
  lemma BinForTextKeys(bins: Value, l: Leaf)
    requires bins.VMap? && (bins.keyTy == TString || bins.keyTy == TAny)
    ensures BinFor(bins, l).Err? ==> BinFor(bins, l).error == InvalidTag(l.field.tag)
    ensures var b := BinFor(bins, l);
      b.Ok? && b.value.Some? ==>
        && l.field.tag != "" && ParseTag(l.field.tag).Ok? && ParseTag(l.field.tag).value.name != ""
        && exists j :: 0 <= j < |bins.entries| &&
             Unbox(bins.entries[j].0) == VString(ParseTag(l.field.tag).value.name) && b.value.value == bins.entries[j].1
  {
  }

  /** The bins pass on one field: a field whose bin exists and whose
      dereferenced value can be assigned receives the bin converted to the
      field's declared type; a pointer to an interface keeps pointing at an
      interface, which now holds the converted pointer. */
  function AssignBin(bins: Value, l: Leaf, parseTime: TimeParser): (r: Result<Value, Error>)
    requires bins.VMap?
    ensures r.Err? ==> r.error.InvalidTag? || r.error.Panic? || r.error.BinConversion?
    ensures r.Err? && r.error.BinConversion? ==> r.error.field == l.field.name
    ensures r.Ok? && r.value != l.raw ==> SeenSettable(l) && BinFor(bins, l).Ok? && BinFor(bins, l).value.Some?
  {
    var b :- BinFor(bins, l);
    if b.None? || !SeenSettable(l) then Ok(l.raw)
    else
      match Convert(b.value, l.field.ty, parseTime)
      case Err(e) => Err(BinConversion(l.field.name, e))
      case Ok(c) => Ok(Stored(l, c))
  }

  /** The new value of a field whose converted bin is `c`. */
  function Stored(l: Leaf, c: Value): Value {
    if l.raw.VPtr? && l.raw.elemTy == TAny then Reattach(l.raw, VIface(c)) else c
  }

  /** What the bins pass makes of one field: the failure to find its bin;
      the field unchanged when it has no bin or cannot be assigned; and
      otherwise the converted bin, or the conversion's failure named after
      the field. */
  lemma AssignBinEffect(bins: Value, l: Leaf, parseTime: TimeParser)
    requires bins.VMap?
    ensures var b := BinFor(bins, l); var r := AssignBin(bins, l, parseTime);
      && (b.Err? ==> r == Err(b.error))
      && (b.Ok? && (b.value.None? || !SeenSettable(l)) ==> r == Ok(l.raw))
      && (b.Ok? && b.value.Some? && SeenSettable(l) ==>
            var c := Convert(b.value.value, l.field.ty, parseTime);
            && (c.Err? ==> r == Err(BinConversion(l.field.name, c.error)))
            && (c.Ok? ==> r == Ok(Stored(l, c.value))))
  {
  }

  /** The bins pass as the library performs it: assignability is checked on
      the dereferenced field, which is then assigned the bin converted to
      the field's declared type. A nil pointer field is skipped, and a
      non-nil pointer field receives a pointer where its target type is
      expected, which panics unless that type is an interface. */
  function AssignBinAsWritten(bins: Value, l: Leaf, parseTime: TimeParser): (r: Result<Value, Error>)
    requires bins.VMap?
    ensures r.Ok? && r.value != l.raw ==> SeenSettable(l) && BinFor(bins, l).Ok? && BinFor(bins, l).value.Some?
    ensures r.Err? && r.error.Panic? && BinFor(bins, l).Ok? ==>
      l.raw.VPtr? && l.raw.elemTy != TAny && SeenSettable(l)
  {
    var b :- BinFor(bins, l);
    if b.None? || !SeenSettable(l) then Ok(l.raw)
    else
      match Convert(b.value, l.field.ty, parseTime)
      case Err(e) => Err(BinConversion(l.field.name, e))
      case Ok(c) =>
        if !l.raw.VPtr? then Ok(c)
        else if l.raw.elemTy == TAny then Ok(Reattach(l.raw, VIface(c)))
        else Err(Panic("Set: a pointer is not assignable to its target type"))
  }

  /** Decodes the bins of map `bins` into `v`. */
  function DecodeBins(bins: Value, v: Value, parseTime: TimeParser): Result<Value, Error> {
    if !bins.VMap? then Ok(v)
    else Pass(v, l => AssignBin(bins, l, parseTime))
  }

  // ---------------------------------------------------------------------------
  // Key

  /** The key accessor behind each key metadata name. */
  function KeyMethod(name: string): string {
    if name == Namespace then NamespaceMethod
    else if name == SetName then SetNameMethod
    else if name == UserKey then ValueMethod
    else DigestMethod
  }

  /** What the accessor's result `res` makes of a field currently holding
      `fv`: text and the user key must have exactly the field's type; the
      digest goes into a byte array of its length or a byte slice. */
  function KeyResult(name: string, res: Value, fv: Value): (r: Result<Value, Error>)
    requires name in {Namespace, SetName, UserKey, Digest}
    requires fv != VInvalid
    ensures r.Ok? ==> r.value != VInvalid && TypeOf(r.value) == TypeOf(fv)
  {
    if name == Digest then
      var bytes := if res.VSlice? then res.items else [];
      var ft := TypeOf(fv);
      if ft.TArray? && ft.elem == TUint(Uint8) then
        if ft.len != |bytes| then Err(DigestLengthMismatch(|bytes|, ft.len))
        else Ok(VArray(TUint(Uint8), bytes))
      else if ft == TSlice(TUint(Uint8)) then Ok(VSlice(TUint(Uint8), bytes))
      else Err(WrongDigestTarget(ft))
    else if name == UserKey then
      if !res.VIface? then Err(Panic("MethodByName on a nil interface value"))
      else if TypeOf(fv) == TAny then Ok(res)
      else Err(WrongType(ValueMethod, TypeOf(fv), TAny))
    else if res != VInvalid && TypeOf(res) == TypeOf(fv) then Ok(res)
    else Err(WrongType(KeyMethod(name), TypeOf(fv), if res == VInvalid then TAny else TypeOf(res)))
  }

  /** The key pass on one field: a `meta` field naming namespace, set name,
      user key or digest must be assignable, and receives what the key's
      accessor returns. */
  function AssignKey(key: Value, kp: Place, l: Leaf): (r: Result<Value, Error>) {
    if l.field.tag == "" then Ok(l.raw)
    else
      var tag :- ParseTag(l.field.tag);
      if !tag.meta || tag.name !in {Namespace, SetName, UserKey, Digest} then Ok(l.raw)
      else if !SeenSettable(l) then
        if Seen(l) == VInvalid then Err(Panic("Type of the value a nil pointer leads to"))
        else Err(CannotChange(TypeOf(Seen(l))))
      else
        var res :- GetMethod(key, kp, KeyMethod(tag.name));
        var nv :- KeyResult(tag.name, res, Seen(l));
        Ok(Reattach(l.raw, nv))
  }

  /** Decodes key `key`, found at place `kp`, into `v`. */
  function DecodeKey(key: Value, kp: Place, v: Value): Result<Value, Error> {
    Pass(v, l => AssignKey(key, kp, l))
  }

  // ---------------------------------------------------------------------------
  // Generation and expiration

  /** The integer a signed or unsigned value holds. */
  function IntegerOf(v: Value): int
    requires v.VInt? || v.VUint?
  {
    if v.VInt? then v.i else v.n
  }

  /** `n` lies in the range of the integer kind of `dest`. */
  predicate Fits(dest: Value, n: int) {
    (dest.VInt? && InIntRange(dest.ik, n)) || (dest.VUint? && InUintRange(dest.uk, n))
  }

  /** Copies the integer `src` (read at place `sp`) into a field holding
      `dest`: it succeeds exactly when both are integers, the source's
      value lies in the field's range and the source may be read out; the
      field keeps its type and receives the source's value. */
  function SetIntegerValue(dest: Value, src: Value, sp: Place): (r: Result<Value, Error>)
    ensures r.Ok? <==> (src.VInt? || src.VUint?) && Fits(dest, IntegerOf(src)) && !ReadOnly(sp)
    ensures r.Ok? ==> Fits(r.value, IntegerOf(src)) && TypeOf(r.value) == TypeOf(dest)
    ensures r.Ok? ==> IntegerOf(r.value) == IntegerOf(src)
    ensures r.Err? && (src.VInt? || src.VUint?) && (dest.VInt? || dest.VUint?) && !Fits(dest, IntegerOf(src))
      ==> r.error == Overflow(IntegerOf(src), TypeOf(dest))
    ensures r.Err? && !(dest.VInt? || dest.VUint? || dest == VInvalid) ==> r.error == UnsupportedFieldType(TypeOf(dest))
  {
    match dest
    case VInvalid => Err(Panic("Type of an invalid value"))
    case VInt(k, _) =>
      if !(src.VInt? || src.VUint?) then Err(Panic("Int of a non-integer value"))
      else if !InIntRange(k, IntegerOf(src)) then Err(Overflow(IntegerOf(src), TInt(k)))
      else if ReadOnly(sp) then Err(Panic("Interface on a value obtained through a non-exported field"))
      else Ok(VInt(k, IntegerOf(src)))
    case VUint(k, _) =>
      if !(src.VInt? || src.VUint?) then Err(Panic("Uint of a non-integer value"))
      else if !InUintRange(k, IntegerOf(src)) then Err(Overflow(IntegerOf(src), TUint(k)))
      else if ReadOnly(sp) then Err(Panic("Interface on a value obtained through a non-exported field"))
      else Ok(VUint(k, IntegerOf(src)))
    case _ => Err(UnsupportedFieldType(TypeOf(dest)))
  }

  /** The library's version: a signed field reads its source as signed and
      an unsigned one as unsigned (either read panics on the other
      signedness), and the overflow message for an unsigned field reads the
      source as signed, so that overflow panics too. */
  function SetIntegerValueAsWritten(dest: Value, src: Value, sp: Place): (r: Result<Value, Error>)
    ensures r.Ok? <==>
      ((dest.VInt? && src.VInt?) || (dest.VUint? && src.VUint?)) && Fits(dest, IntegerOf(src)) && !ReadOnly(sp)
    ensures r.Ok? ==>
      && (src.VInt? || src.VUint?) && (r.value.VInt? || r.value.VUint?) && dest != VInvalid
      && TypeOf(r.value) == TypeOf(dest) && IntegerOf(r.value) == IntegerOf(src)
  {
    match dest
    case VInvalid => Err(Panic("Type of an invalid value"))
    case VInt(k, _) =>
      if !src.VInt? then Err(Panic("Int of a non-signed value"))
      else if !InIntRange(k, src.i) then Err(Overflow(src.i, TInt(k)))
      else if ReadOnly(sp) then Err(Panic("Interface on a value obtained through a non-exported field"))
      else Ok(VInt(k, src.i))
    case VUint(k, _) =>
      if !src.VUint? then Err(Panic("Uint of a non-unsigned value"))
      else if !InUintRange(k, src.n) then Err(Panic("Int of an unsigned value, in the overflow message"))
      else if ReadOnly(sp) then Err(Panic("Interface on a value obtained through a non-exported field"))
      else Ok(VUint(k, src.n))
    case _ => Err(UnsupportedFieldType(TypeOf(dest)))
  }

  /** The record field behind each counter name. */
  function CounterField(name: string): string {
    if name == Generation then GenerationField else ExpirationField
  }

  /** The counters pass on one field: a `meta` field naming generation or
      expiration must be assignable, and receives the record's counter. */
  function AssignCounter(rec: Value, rp: Place, l: Leaf): (r: Result<Value, Error>) {
    if l.field.tag == "" then Ok(l.raw)
    else
      var tag :- ParseTag(l.field.tag);
      if !tag.meta || !(tag.name == Generation || tag.name == Expiration) then Ok(l.raw)
      else if !SeenSettable(l) then Err(CannotSet(tag.name))
      else
        var (src, sp) :- GetField(rec, rp, CounterField(tag.name));
        match SetIntegerValue(Seen(l), src, sp)
        case Err(e) => Err(ForTag(tag.name, e))
        case Ok(nv) => Ok(Reattach(l.raw, nv))
  }

  /** Decodes the counters of record `rec`, found at place `rp`, into `v`. */
  function DecodeRecord(rec: Value, rp: Place, v: Value): Result<Value, Error> {
    Pass(v, l => AssignCounter(rec, rp, l))
  }

  // ---------------------------------------------------------------------------
  // The record

  /** Decodes field `i` of record `r` at place `rp` into `v`; `inner`
      marks a record reached through another record's field, whose own
      counters are not read. Returns the new value of `v` and whether the
      field is a record part: a batch record, a record or the bins. */
  function DecodeField(r: Value, rp: Place, inner: bool, i: nat, v: Value, parseTime: TimeParser)
    : Result<(Value, bool), Error>
    requires i < |FieldsOf(r)|
    decreases r, 0, |FieldsOf(r)| - i, 0
  {
    var (fv, fp) := FieldValueDeref(r, rp, i);
    assert i < |r.vals| ==> fv == Deref(r.vals[i]);
    var name := FieldsOf(r)[i].name;
    if IsStructKind(fv) && name == BatchRecordField then
      var v' :- DecodeStruct(fv, fp, true, v, parseTime);
      Ok((v', true))
    else if IsStructKind(fv) && name == RecordField then
      var v1 :- DecodeRecord(fv, fp, v);
      var v2 :- DecodeStruct(fv, fp, true, v1, parseTime);
      Ok((v2, true))
    else
      DecodeMetaField(r, rp, inner, name, fv, fp, v, parseTime)
  }

  /** The fields of a record other than nested records: the key, the bins,
      and (at the top level only) the counters; any other field is
      skipped. */
  function DecodeMetaField(r: Value, rp: Place, inner: bool, name: string, fv: Value, fp: Place, v: Value,
                           parseTime: TimeParser)
    : Result<(Value, bool), Error>
  {
    if IsStructKind(fv) && name == KeyField then
      var v' :- DecodeKey(fv, fp, v);
      Ok((v', false))
    else if fv.VMap? && name == BinsField then
      var v' :- DecodeBins(fv, v, parseTime);
      Ok((v', true))
    else if !inner && fv.VUint? && fv.uk == Uint32 && (name == GenerationField || name == ExpirationField) then
      var v' :- DecodeRecord(r, rp, v);
      Ok((v', false))
    else
      Ok((v, false))
  }

  /** Decodes fields `i..` of record `r` into `v`, `isRecord` telling
      whether a record part was met so far. */
  function DecodeFields(r: Value, rp: Place, inner: bool, i: nat, v: Value, isRecord: bool,
                        parseTime: TimeParser)
    : Result<(Value, bool), Error>
    decreases r, 0, |FieldsOf(r)| - i, 1
  {
    if i >= |FieldsOf(r)| then Ok((v, isRecord))
    else
      var (v', part) :- DecodeField(r, rp, inner, i, v, parseTime);
      DecodeFields(r, rp, inner, i + 1, v', isRecord || part, parseTime)
  }

  /** Decodes record `r` into `v`; a record without any record part is not
      a valid source. */
  function DecodeStruct(r: Value, rp: Place, inner: bool, v: Value, parseTime: TimeParser)
    : Result<Value, Error>
    decreases r, 1
  {
    var (v', isRecord) :- DecodeFields(r, rp, inner, 0, v, false, parseTime);
    if isRecord then Ok(v') else Err(InvalidSource)
  }

  /** Decodes `record`, a struct or a pointer to one, into `v`. */
  function Decode(record: Value, v: Value, parseTime: TimeParser): (r: Result<Value, Error>)
    ensures var x := Unbox(record);
      !(IsStructKind(x) || (x.VPtr? && IsStructKind(x.target))) ==> r == Err(InvalidSourceType)
  {
    var (r, rp) :- StructValue(Boxed(record));
    DecodeStruct(r, rp, false, v, parseTime)
  }

  // ---------------------------------------------------------------------------
  // Types are kept

  /** The bins pass keeps every field at its declared type when the bins
      are valid values. */
  lemma AssignBinKeepsTypes(bins: Value, parseTime: TimeParser)
    requires bins.VMap? && forall j :: 0 <= j < |bins.entries| ==> ValidSource(bins.entries[j].1)
    ensures KeepsTypes(l => AssignBin(bins, l, parseTime))
  {
    forall l: Leaf | HasType(l.raw, l.field.ty) && AssignBin(bins, l, parseTime).Ok?
      ensures HasType(AssignBin(bins, l, parseTime).value, l.field.ty)
    {
      AssignBinHasType(bins, l, parseTime);
    }
  }

  lemma AssignBinHasType(bins: Value, l: Leaf, parseTime: TimeParser)
    requires bins.VMap? && forall j :: 0 <= j < |bins.entries| ==> ValidSource(bins.entries[j].1)
    requires HasType(l.raw, l.field.ty)
    ensures var r := AssignBin(bins, l, parseTime); r.Ok? ==> HasType(r.value, l.field.ty)
  {
    var b := BinFor(bins, l);
    if b.Ok? && b.value.Some? && SeenSettable(l) {
      var x := b.value.value;
      BinForValid(bins, l);
      var c := Convert(x, l.field.ty, parseTime);
      ConvertHasType(x, l.field.ty, parseTime);
      AssignBinEffect(bins, l, parseTime);
      if c.Ok? {
        StoredHasType(l, c.value);
      }
    } else {
      AssignBinEffect(bins, l, parseTime);
    }
  }

  /** A bin of a map holding valid values is valid. */
  lemma BinForValid(bins: Value, l: Leaf)
    requires bins.VMap? && forall j :: 0 <= j < |bins.entries| ==> ValidSource(bins.entries[j].1)
    ensures var b := BinFor(bins, l); b.Ok? && b.value.Some? ==> ValidSource(b.value.value)
  {
    var b := BinFor(bins, l);
    if b.Ok? && b.value.Some? {
      var j :| 0 <= j < |bins.entries| && Unbox(bins.entries[j].0) == VString(ParseTag(l.field.tag).value.name)
        && b.value.value == bins.entries[j].1;
    }
  }

  /** What the bins pass stores for a converted bin has the field's type. */
  lemma StoredHasType(l: Leaf, c: Value)
    requires HasType(l.raw, l.field.ty) && SeenSettable(l) && HasType(c, l.field.ty)
    ensures HasType(Stored(l, c), l.field.ty)
  {
    if l.raw.VPtr? && l.raw.elemTy == TAny {
      HasTypeIsTypeOf(c, l.field.ty);
      assert HasType(VIface(c), TAny);
      ReattachHasType(l, VIface(c));
    }
  }

  /** What the accessors of a well-formed key return is well-formed, and a
      slice among them is a byte slice. */
  lemma GetMethodValid(key: Value, kp: Place, name: string)
    requires ValidSource(key)
    ensures var r := GetMethod(key, kp, name);
      r.Ok? ==> ValidSource(r.value) && (r.value.VSlice? ==> r.value.elemTy == TUint(Uint8))
  {
    var r := GetMethod(key, kp, name);
    if r.Ok? && name == DigestMethod {
      var items := ByteValues(key.digest);
      assert forall j :: 0 <= j < |items| ==> HasType(items[j], TUint(Uint8));
    }
  }

  lemma KeyResultHasType(name: string, res: Value, fv: Value)
    requires name in {Namespace, SetName, UserKey, Digest} && fv != VInvalid
    requires ValidSource(res) && (res.VSlice? ==> res.elemTy == TUint(Uint8))
    ensures var r := KeyResult(name, res, fv); r.Ok? ==> HasType(r.value, TypeOf(fv))
  {
    var r := KeyResult(name, res, fv);
    if r.Ok? && res != VInvalid {
      HasTypeIsTypeOf(res, TypeOf(res));
    }
  }

  /** The key pass keeps every field at its declared type. */
  lemma AssignKeyKeepsTypes(key: Value, kp: Place)
    requires ValidSource(key)
    ensures KeepsTypes(l => AssignKey(key, kp, l))
  {
    forall l: Leaf | HasType(l.raw, l.field.ty) && AssignKey(key, kp, l).Ok?
      ensures HasType(AssignKey(key, kp, l).value, l.field.ty)
    {
      AssignKeyHasType(key, kp, l);
    }
  }

  lemma AssignKeyHasType(key: Value, kp: Place, l: Leaf)
    requires ValidSource(key) && HasType(l.raw, l.field.ty)
    ensures var r := AssignKey(key, kp, l); r.Ok? ==> HasType(r.value, l.field.ty)
  {
    if l.field.tag != "" && ParseTag(l.field.tag).Ok? {
      var tag := ParseTag(l.field.tag).value;
      if tag.meta && tag.name in {Namespace, SetName, UserKey, Digest} && SeenSettable(l) {
        KeyStepHasType(key, kp, l, tag);
      }
    }
  }

  /** A key metadata field that can be set receives a value of its type. */
  lemma KeyStepHasType(key: Value, kp: Place, l: Leaf, tag: Tag)
    requires ValidSource(key) && HasType(l.raw, l.field.ty)
    requires l.field.tag != "" && ParseTag(l.field.tag) == Ok(tag)
    requires tag.meta && tag.name in {Namespace, SetName, UserKey, Digest} && SeenSettable(l)
    ensures var r := AssignKey(key, kp, l); r.Ok? ==> HasType(r.value, l.field.ty)
  {
    var m := GetMethod(key, kp, KeyMethod(tag.name));
    if m.Ok? {
      var k := KeyResult(tag.name, m.value, Seen(l));
      if k.Ok? {
        assert AssignKey(key, kp, l) == Ok(Reattach(l.raw, k.value));
        GetMethodValid(key, kp, KeyMethod(tag.name));
        KeyResultHasType(tag.name, m.value, Seen(l));
        ReattachHasType(l, k.value);
      }
    }
  }

  /** Putting a value of the type of what a pass sees back into the field. */
  lemma ReattachHasType(l: Leaf, nv: Value)
    requires HasType(l.raw, l.field.ty) && Seen(l) != VInvalid && HasType(nv, TypeOf(Seen(l)))
    ensures HasType(Reattach(l.raw, nv), l.field.ty)
  {
    if l.raw.VPtr? {
      HasTypeIsTypeOf(l.raw.target, l.raw.elemTy);
    } else {
      HasTypeIsTypeOf(l.raw, l.field.ty);
    }
  }

  /** The counters pass keeps every field at its declared type. */
  lemma AssignCounterKeepsTypes(rec: Value, rp: Place)
    ensures KeepsTypes(l => AssignCounter(rec, rp, l))
  {
    forall l: Leaf | HasType(l.raw, l.field.ty) && AssignCounter(rec, rp, l).Ok?
      ensures HasType(AssignCounter(rec, rp, l).value, l.field.ty)
    {
      AssignCounterHasType(rec, rp, l);
    }
  }

  lemma AssignCounterHasType(rec: Value, rp: Place, l: Leaf)
    requires HasType(l.raw, l.field.ty)
    ensures var r := AssignCounter(rec, rp, l); r.Ok? ==> HasType(r.value, l.field.ty)
  {
    var r := AssignCounter(rec, rp, l);
    if r.Ok? && l.field.tag != "" {
      var tag := ParseTag(l.field.tag).value;
      if tag.meta && (tag.name == Generation || tag.name == Expiration) {
        var (src, sp) := GetField(rec, rp, CounterField(tag.name)).value;
        var nv := SetIntegerValue(Seen(l), src, sp).value;
        assert r.value == Reattach(l.raw, nv);
        CounterHasType(Seen(l), src, sp);
        ReattachHasType(l, nv);
      }
    }
  }

  /** What the counters pass puts into a field has the type of what was
      there. */
  lemma CounterHasType(dest: Value, src: Value, sp: Place)
    ensures var r := SetIntegerValue(dest, src, sp);
      r.Ok? ==> dest != VInvalid && HasType(r.value, TypeOf(dest))
  {
  }

  /** A pass with a type-keeping action yields a value of the argument's
      type. */
  lemma PassHasType(v: Value, act: Action)
    requires KeepsTypes(act) && WellFormed(v)
    ensures var r := Pass(v, act); r.Ok? ==> WellFormed(r.value) && TypeOf(r.value) == TypeOf(v)
  {
    var sv := StructValue(Boxed(v));
    if sv.Ok? {
      var (s, p) := sv.value;
      var x := Unbox(v);
      assert WellFormed(x);
      if x.VPtr? {
        HasTypeIsTypeOf(x.target, x.elemTy);
      }
      WalkHasType(s, p, act);
    }
  }

  lemma DecodeBinsHasType(bins: Value, v: Value, parseTime: TimeParser)
    requires ValidSource(bins) && WellFormed(v)
    ensures var r := DecodeBins(bins, v, parseTime); r.Ok? ==> WellFormed(r.value) && TypeOf(r.value) == TypeOf(v)
  {
    if bins.VMap? {
      PartsValid(bins);
      AssignBinKeepsTypes(bins, parseTime);
      PassHasType(v, l => AssignBin(bins, l, parseTime));
    }
  }

  lemma DecodeKeyHasType(key: Value, kp: Place, v: Value)
    requires ValidSource(key) && WellFormed(v)
    ensures var r := DecodeKey(key, kp, v); r.Ok? ==> WellFormed(r.value) && TypeOf(r.value) == TypeOf(v)
  {
    AssignKeyKeepsTypes(key, kp);
    PassHasType(v, l => AssignKey(key, kp, l));
  }

  lemma DecodeRecordHasType(rec: Value, rp: Place, v: Value)
    requires WellFormed(v)
    ensures var r := DecodeRecord(rec, rp, v); r.Ok? ==> WellFormed(r.value) && TypeOf(r.value) == TypeOf(v)
  {
    AssignCounterKeepsTypes(rec, rp);
    PassHasType(v, l => AssignCounter(rec, rp, l));
  }

  /** Decoding never changes the type of the value decoded into, and
      leaves it well-formed. */
  lemma DecodeHasType(record: Value, v: Value, parseTime: TimeParser)
    requires ValidSource(record) && WellFormed(v)
    ensures var r := Decode(record, v, parseTime); r.Ok? ==> WellFormed(r.value) && TypeOf(r.value) == TypeOf(v)
  {
    var sv := StructValue(Boxed(record));
    if sv.Ok? {
      var x := Unbox(record);
      if x.VPtr? {
        DerefWellFormed(record);
      }
      DecodeStructHasType(sv.value.0, sv.value.1, false, v, parseTime);
    }
  }

  lemma {:induction false} DecodeStructHasType(r: Value, rp: Place, inner: bool, v: Value, parseTime: TimeParser)
    requires ValidSource(r) && WellFormed(v)
    ensures var d := DecodeStruct(r, rp, inner, v, parseTime); d.Ok? ==> WellFormed(d.value) && TypeOf(d.value) == TypeOf(v)
    decreases r, 1
  {
    DecodeFieldsHasType(r, rp, inner, 0, v, false, parseTime);
  }

  lemma {:induction false} DecodeFieldsHasType(r: Value, rp: Place, inner: bool, i: nat, v: Value, isRecord: bool,
                                               parseTime: TimeParser)
    requires ValidSource(r) && WellFormed(v)
    ensures var d := DecodeFields(r, rp, inner, i, v, isRecord, parseTime);
      d.Ok? ==> WellFormed(d.value.0) && TypeOf(d.value.0) == TypeOf(v)
    decreases r, 0, |FieldsOf(r)| - i, 2
  {
    if i < |FieldsOf(r)| {
      DecodeFieldHasType(r, rp, inner, i, v, parseTime);
      var d := DecodeField(r, rp, inner, i, v, parseTime);
      if d.Ok? {
        DecodeFieldsHasType(r, rp, inner, i + 1, d.value.0, isRecord || d.value.1, parseTime);
      }
    }
  }

  lemma {:induction false} DecodeFieldHasType(r: Value, rp: Place, inner: bool, i: nat, v: Value, parseTime: TimeParser)
    requires i < |FieldsOf(r)|
    requires ValidSource(r) && WellFormed(v)
    ensures var d := DecodeField(r, rp, inner, i, v, parseTime);
      d.Ok? ==> WellFormed(d.value.0) && TypeOf(d.value.0) == TypeOf(v)
    decreases r, 0, |FieldsOf(r)| - i, 1
  {
    if IsStructKind(FieldValueDeref(r, rp, i).0) && FieldsOf(r)[i].name == BatchRecordField {
      BatchFieldHasType(r, rp, inner, i, v, parseTime);
    } else if IsStructKind(FieldValueDeref(r, rp, i).0) && FieldsOf(r)[i].name == RecordField {
      RecordFieldHasType(r, rp, inner, i, v, parseTime);
    } else {
      MetaFieldHasType(r, rp, inner, i, v, parseTime);
    }
  }

  /** A `BatchRecord` field keeps the target's type. */
  lemma {:induction false} BatchFieldHasType(r: Value, rp: Place, inner: bool, i: nat, v: Value, parseTime: TimeParser)
    requires i < |FieldsOf(r)|
    requires ValidSource(r) && WellFormed(v)
    requires IsStructKind(FieldValueDeref(r, rp, i).0) && FieldsOf(r)[i].name == BatchRecordField
    ensures var d := DecodeField(r, rp, inner, i, v, parseTime);
      d.Ok? ==> WellFormed(d.value.0) && TypeOf(d.value.0) == TypeOf(v)
    decreases r, 0, |FieldsOf(r)| - i, 0
  {
    var (fv, fp) := FieldValueDeref(r, rp, i);
    FieldPartValid(r, rp, i);
    DecodeStructHasType(fv, fp, true, v, parseTime);
  }

  /** A `Record` field keeps the target's type: its counters, then its own
      fields. */
  lemma {:induction false} RecordFieldHasType(r: Value, rp: Place, inner: bool, i: nat, v: Value, parseTime: TimeParser)
    requires i < |FieldsOf(r)|
    requires ValidSource(r) && WellFormed(v)
    requires IsStructKind(FieldValueDeref(r, rp, i).0) && FieldsOf(r)[i].name == RecordField
    ensures var d := DecodeField(r, rp, inner, i, v, parseTime);
      d.Ok? ==> WellFormed(d.value.0) && TypeOf(d.value.0) == TypeOf(v)
    decreases r, 0, |FieldsOf(r)| - i, 0
  {
    var (fv, fp) := FieldValueDeref(r, rp, i);
    FieldPartValid(r, rp, i);
    DecodeRecordHasType(fv, fp, v);
    var d1 := DecodeRecord(fv, fp, v);
    if d1.Ok? {
      DecodeStructHasType(fv, fp, true, d1.value, parseTime);
    }
  }

  /** Any other field of a record keeps the target's type. */
  lemma MetaFieldHasType(r: Value, rp: Place, inner: bool, i: nat, v: Value, parseTime: TimeParser)
    requires i < |FieldsOf(r)|
    requires ValidSource(r) && WellFormed(v)
    requires IsStructKind(FieldValueDeref(r, rp, i).0) ==>
      FieldsOf(r)[i].name != BatchRecordField && FieldsOf(r)[i].name != RecordField
    ensures var d := DecodeField(r, rp, inner, i, v, parseTime);
      d.Ok? ==> WellFormed(d.value.0) && TypeOf(d.value.0) == TypeOf(v)
  {
    var (fv, fp) := FieldValueDeref(r, rp, i);
    FieldPartValid(r, rp, i);
    DecodeMetaFieldHasType(r, rp, inner, FieldsOf(r)[i].name, fv, fp, v, parseTime);
  }

  /** A struct or map a valid record holds, directly or through a
      pointer, is valid too. */
  lemma FieldPartValid(r: Value, rp: Place, i: nat)
    requires i < |FieldsOf(r)| && ValidSource(r)
    ensures var fv := FieldValueDeref(r, rp, i).0; (IsStructKind(fv) || fv.VMap?) ==> ValidSource(fv)
  {
    var fv := FieldValueDeref(r, rp, i).0;
    if IsStructKind(fv) || fv.VMap? {
      assert i < |r.vals| && fv == Deref(r.vals[i]);
      PartsValid(r);
      DerefWellFormed(r.vals[i]);
    }
  }

  lemma DecodeMetaFieldHasType(r: Value, rp: Place, inner: bool, name: string, fv: Value, fp: Place, v: Value,
                               parseTime: TimeParser)
    requires WellFormed(v) && ((IsStructKind(fv) || fv.VMap?) ==> ValidSource(fv))
    ensures var d := DecodeMetaField(r, rp, inner, name, fv, fp, v, parseTime);
      d.Ok? ==> WellFormed(d.value.0) && TypeOf(d.value.0) == TypeOf(v)
  {
    if IsStructKind(fv) && name == KeyField {
      DecodeKeyHasType(fv, fp, v);
    } else if fv.VMap? && name == BinsField {
      DecodeBinsHasType(fv, v, parseTime);
    } else if !inner && fv.VUint? && fv.uk == Uint32 && (name == GenerationField || name == ExpirationField) {
      DecodeRecordHasType(r, rp, v);
    }
  }

  /** A struct handed over by value is the callee's copy: decoding into it
      may fail, but never changes the caller's value. */
  lemma DecodeByValue(record: Value, v: Value, parseTime: TimeParser)
    requires !Unbox(v).VPtr?
    ensures var r := Decode(record, v, parseTime); r.Ok? ==> r.value == v
  {
    var sv := StructValue(Boxed(record));
    if sv.Ok? {
      DecodeStructByValue(sv.value.0, sv.value.1, false, v, parseTime);
    }
  }

  lemma {:induction false} DecodeStructByValue(r: Value, rp: Place, inner: bool, v: Value, parseTime: TimeParser)
    requires !Unbox(v).VPtr?
    ensures var d := DecodeStruct(r, rp, inner, v, parseTime); d.Ok? ==> d.value == v
    decreases r, 1
  {
    DecodeFieldsByValue(r, rp, inner, 0, v, false, parseTime);
  }

  lemma {:induction false} DecodeFieldsByValue(r: Value, rp: Place, inner: bool, i: nat, v: Value, isRecord: bool,
                                               parseTime: TimeParser)
    requires !Unbox(v).VPtr?
    ensures var d := DecodeFields(r, rp, inner, i, v, isRecord, parseTime); d.Ok? ==> d.value.0 == v
    decreases r, 0, |FieldsOf(r)| - i, 1
  {
    if i < |FieldsOf(r)| {
      DecodeFieldByValue(r, rp, inner, i, v, parseTime);
      var d := DecodeField(r, rp, inner, i, v, parseTime);
      if d.Ok? {
        DecodeFieldsByValue(r, rp, inner, i + 1, v, isRecord || d.value.1, parseTime);
      }
    }
  }

  lemma {:induction false} DecodeFieldByValue(r: Value, rp: Place, inner: bool, i: nat, v: Value, parseTime: TimeParser)
    requires i < |FieldsOf(r)| && !Unbox(v).VPtr?
    ensures var d := DecodeField(r, rp, inner, i, v, parseTime); d.Ok? ==> d.value.0 == v
    decreases r, 0, |FieldsOf(r)| - i, 0
  {
    var (fv, fp) := FieldValueDeref(r, rp, i);
    var name := FieldsOf(r)[i].name;
    if IsStructKind(fv) && (name == BatchRecordField || name == RecordField) {
      assert i < |r.vals| && fv == Deref(r.vals[i]);
      DecodeStructByValue(fv, fp, true, v, parseTime);
    } else {
      MetaFieldByValue(r, rp, inner, name, fv, fp, v, parseTime);
    }
  }

  lemma MetaFieldByValue(r: Value, rp: Place, inner: bool, name: string, fv: Value, fp: Place, v: Value,
                         parseTime: TimeParser)
    requires !Unbox(v).VPtr?
    ensures var d := DecodeMetaField(r, rp, inner, name, fv, fp, v, parseTime); d.Ok? ==> d.value.0 == v
  {
  }

  // ---------------------------------------------------------------------------
  // Record parts

  /** Field `i` of `r` is a record part: a nested batch record or record,
      or the bins. */
  predicate RecordPart(r: Value, rp: Place, i: nat)
    requires i < |FieldsOf(r)|
  {
    var fv := FieldValueDeref(r, rp, i).0;
    var name := FieldsOf(r)[i].name;
    (IsStructKind(fv) && (name == BatchRecordField || name == RecordField)) || (fv.VMap? && name == BinsField)
  }

  /** A field reports itself as a record part exactly when it is one. */
  lemma DecodeFieldPart(r: Value, rp: Place, inner: bool, i: nat, v: Value, parseTime: TimeParser)
    requires i < |FieldsOf(r)|
    ensures var d := DecodeField(r, rp, inner, i, v, parseTime); d.Ok? ==> (d.value.1 <==> RecordPart(r, rp, i))
  {
    var (fv, fp) := FieldValueDeref(r, rp, i);
    var name := FieldsOf(r)[i].name;
    if !(IsStructKind(fv) && (name == BatchRecordField || name == RecordField)) {
      MetaFieldPart(r, rp, inner, name, fv, fp, v, parseTime);
    }
  }

  lemma MetaFieldPart(r: Value, rp: Place, inner: bool, name: string, fv: Value, fp: Place, v: Value,
                      parseTime: TimeParser)
    ensures var d := DecodeMetaField(r, rp, inner, name, fv, fp, v, parseTime);
      d.Ok? ==> (d.value.1 <==> fv.VMap? && name == BinsField)
  {
  }

  lemma {:induction false} DecodeFieldsPart(r: Value, rp: Place, inner: bool, i: nat, v: Value, isRecord: bool,
                                            parseTime: TimeParser)
    ensures var d := DecodeFields(r, rp, inner, i, v, isRecord, parseTime);
      d.Ok? ==> (d.value.1 <==> isRecord || exists j :: i <= j < |FieldsOf(r)| && RecordPart(r, rp, j))
    decreases |FieldsOf(r)| - i
  {
    if i < |FieldsOf(r)| {
      DecodeFieldPart(r, rp, inner, i, v, parseTime);
      var d := DecodeField(r, rp, inner, i, v, parseTime);
      if d.Ok? {
        DecodeFieldsPart(r, rp, inner, i + 1, d.value.0, isRecord || d.value.1, parseTime);
      }
    }
  }

  /** Decoding succeeds only from a source holding a record part: a struct
      without batch record, record or bins is not a valid source. */
  lemma DecodeNeedsRecordPart(record: Value, v: Value, parseTime: TimeParser)
    ensures Decode(record, v, parseTime).Ok? ==>
      var (r, rp) := StructValue(Boxed(record)).value;
      exists j :: 0 <= j < |FieldsOf(r)| && RecordPart(r, rp, j)
    ensures StructValue(Boxed(record)).Ok? ==>
      var (r, rp) := StructValue(Boxed(record)).value;
      (DecodeFields(r, rp, false, 0, v, false, parseTime).Ok?
       && !(exists j :: 0 <= j < |FieldsOf(r)| && RecordPart(r, rp, j)))
      ==> Decode(record, v, parseTime) == Err(InvalidSource)
  {
    var sv := StructValue(Boxed(record));
    if sv.Ok? {
      DecodeFieldsPart(sv.value.0, sv.value.1, false, 0, v, false, parseTime);
    }
  }

  // ---------------------------------------------------------------------------
  // Passes

  /** A pass over a struct, or a pointer to one, succeeds exactly when its
      step accepts every leaf of that struct, and otherwise fails as the
      step does on the first leaf it rejects. */
  lemma PassAccepts(v: Value, act: Action)
    requires StructValue(Boxed(v)).Ok?
    ensures var (s, p) := StructValue(Boxed(v)).value; var r := Pass(v, act);
      && (r.Ok? <==> AllAccepted(Leaves(s, p), act))
      && (r.Err? ==> FirstFailure(Leaves(s, p), act, r.error))
  {
    var (s, p) := StructValue(Boxed(v)).value;
    WalkAccepts(s, p, act);
  }

  /** Bins that are not a map decode into nothing; otherwise decoding the
      bins succeeds exactly when every leaf takes its bin, and fails as the
      first leaf that does not. */
  lemma DecodeBinsAccepts(bins: Value, v: Value, parseTime: TimeParser)
    ensures !bins.VMap? ==> DecodeBins(bins, v, parseTime) == Ok(v)
    ensures bins.VMap? && StructValue(Boxed(v)).Err? ==> DecodeBins(bins, v, parseTime) == Err(InvalidSourceType)
    ensures bins.VMap? && StructValue(Boxed(v)).Ok? ==>
      var (s, p) := StructValue(Boxed(v)).value; var r := DecodeBins(bins, v, parseTime);
      var act: Action := l => AssignBin(bins, l, parseTime);
      && (r.Ok? <==> AllAccepted(Leaves(s, p), act))
      && (r.Err? ==> FirstFailure(Leaves(s, p), act, r.error))
  {
    if bins.VMap? && StructValue(Boxed(v)).Ok? {
      PassAccepts(v, l => AssignBin(bins, l, parseTime));
    }
  }

  /** Decoding the key succeeds exactly when every leaf takes its part of
      the key, and fails as the first leaf that does not. */
  lemma DecodeKeyAccepts(key: Value, kp: Place, v: Value)
    ensures StructValue(Boxed(v)).Err? ==> DecodeKey(key, kp, v) == Err(InvalidSourceType)
    ensures StructValue(Boxed(v)).Ok? ==>
      var (s, p) := StructValue(Boxed(v)).value; var r := DecodeKey(key, kp, v);
      var act: Action := l => AssignKey(key, kp, l);
      && (r.Ok? <==> AllAccepted(Leaves(s, p), act))
      && (r.Err? ==> FirstFailure(Leaves(s, p), act, r.error))
  {
    if StructValue(Boxed(v)).Ok? {
      PassAccepts(v, l => AssignKey(key, kp, l));
    }
  }

  /** Decoding the counters succeeds exactly when every leaf takes its
      counter, and fails as the first leaf that does not. */
  lemma DecodeRecordAccepts(rec: Value, rp: Place, v: Value)
    ensures StructValue(Boxed(v)).Err? ==> DecodeRecord(rec, rp, v) == Err(InvalidSourceType)
    ensures StructValue(Boxed(v)).Ok? ==>
      var (s, p) := StructValue(Boxed(v)).value; var r := DecodeRecord(rec, rp, v);
      var act: Action := l => AssignCounter(rec, rp, l);
      && (r.Ok? <==> AllAccepted(Leaves(s, p), act))
      && (r.Err? ==> FirstFailure(Leaves(s, p), act, r.error))
  {
    if StructValue(Boxed(v)).Ok? {
      PassAccepts(v, l => AssignCounter(rec, rp, l));
    }
  }

  // ---------------------------------------------------------------------------
  // What the passes write

  /** A key metadata field is written only when the field can be set and
      the key is an addressable key. */
  lemma AssignKeyNeeds(key: Value, kp: Place, l: Leaf, tag: Tag)
    requires l.field.tag != "" && ParseTag(l.field.tag) == Ok(tag)
    requires tag.meta && tag.name in {Namespace, SetName, UserKey, Digest}
    ensures AssignKey(key, kp, l).Ok? ==> SeenSettable(l) && key.VKey? && kp.addr
  {
  }

  /** The namespace and set name land in a text field as they are. */
  lemma AssignKeyWrites(key: Value, kp: Place, l: Leaf, tag: Tag)
    requires l.field.tag != "" && ParseTag(l.field.tag) == Ok(tag)
    requires tag.meta && tag.name in {Namespace, SetName}
    requires SeenSettable(l) && key.VKey? && kp.addr
    ensures Seen(l).VString? && tag.name == Namespace ==>
      AssignKey(key, kp, l) == Ok(Reattach(l.raw, VString(key.namespace)))
    ensures Seen(l).VString? && tag.name == SetName ==>
      AssignKey(key, kp, l) == Ok(Reattach(l.raw, VString(key.setName)))
  {
    if Seen(l).VString? {
      if tag.name == Namespace {
        AssignKeyWritesText(key, kp, l, tag, VString(key.namespace));
      } else {
        AssignKeyWritesText(key, kp, l, tag, VString(key.setName));
      }
    }
  }

  /** One text-valued case of `AssignKeyWrites`, with the key's text as `text`. */
  lemma AssignKeyWritesText(key: Value, kp: Place, l: Leaf, tag: Tag, text: Value)
    requires l.field.tag != "" && ParseTag(l.field.tag) == Ok(tag)
    requires tag.meta && (tag.name == Namespace || tag.name == SetName)
    requires SeenSettable(l) && key.VKey? && kp.addr && Seen(l).VString?
    requires text == VString(if tag.name == Namespace then key.namespace else key.setName)
    ensures AssignKey(key, kp, l) == Ok(Reattach(l.raw, text))
  {
    assert GetMethod(key, kp, KeyMethod(tag.name)) == Ok(text);
    assert KeyResult(tag.name, text, Seen(l)) == Ok(text);
  }

  /** The digest lands in a byte slice as its bytes, or in a byte array
      exactly as long as the digest, else reporting the array's length; any
      other target is refused. */
  lemma AssignKeyDigest(key: Value, kp: Place, l: Leaf, tag: Tag)
    requires l.field.tag != "" && ParseTag(l.field.tag) == Ok(tag) && tag.meta && tag.name == Digest
    requires SeenSettable(l) && key.VKey? && kp.addr
    ensures TypeOf(Seen(l)) == TSlice(TUint(Uint8)) ==>
      AssignKey(key, kp, l) == Ok(Reattach(l.raw, VSlice(TUint(Uint8), ByteValues(key.digest))))
    ensures TypeOf(Seen(l)) == TArray(|key.digest|, TUint(Uint8)) ==>
      AssignKey(key, kp, l) == Ok(Reattach(l.raw, VArray(TUint(Uint8), ByteValues(key.digest))))
    ensures var ft := TypeOf(Seen(l));
      ft.TArray? && ft.elem == TUint(Uint8) && ft.len != |key.digest| ==>
        AssignKey(key, kp, l) == Err(DigestLengthMismatch(|key.digest|, ft.len))
    ensures var ft := TypeOf(Seen(l));
      !(ft.TArray? && ft.elem == TUint(Uint8)) && ft != TSlice(TUint(Uint8)) ==>
        AssignKey(key, kp, l) == Err(WrongDigestTarget(ft))
  {
    assert GetMethod(key, kp, DigestMethod) == Ok(VSlice(TUint(Uint8), ByteValues(key.digest)));
  }

  /** The user key lands, as an interface value, only in an interface
      field; a field of any other type is refused, and a key without a
      user key panics. */
  lemma AssignKeyUserKey(key: Value, kp: Place, l: Leaf, tag: Tag)
    requires l.field.tag != "" && ParseTag(l.field.tag) == Ok(tag) && tag.meta && tag.name == UserKey
    requires SeenSettable(l) && key.VKey? && kp.addr
    ensures key.userKey.Some? && TypeOf(Seen(l)) == TAny ==>
      AssignKey(key, kp, l) == Ok(Reattach(l.raw, VIface(key.userKey.value)))
    ensures key.userKey.Some? && TypeOf(Seen(l)) != TAny ==>
      AssignKey(key, kp, l) == Err(WrongType(ValueMethod, TypeOf(Seen(l)), TAny))
    ensures key.userKey.None? ==> AssignKey(key, kp, l).Err? && AssignKey(key, kp, l).error.Panic?
  {
    assert GetMethod(key, kp, ValueMethod).Ok?;
  }

  /** A namespace or set name field of a type other than text is refused,
      naming the accessor and both types. */
  lemma AssignKeyWrongText(key: Value, kp: Place, l: Leaf, tag: Tag)
    requires l.field.tag != "" && ParseTag(l.field.tag) == Ok(tag) && tag.meta && tag.name in {Namespace, SetName}
    requires SeenSettable(l) && key.VKey? && kp.addr
    requires TypeOf(Seen(l)) != TString
    ensures AssignKey(key, kp, l) == Err(WrongType(KeyMethod(tag.name), TypeOf(Seen(l)), TString))
  {
    var res := GetMethod(key, kp, KeyMethod(tag.name)).value;
    assert res == VString(if tag.name == Namespace then key.namespace else key.setName);
    assert KeyResult(tag.name, res, Seen(l)) == Err(WrongType(KeyMethod(tag.name), TypeOf(Seen(l)), TString));
  }

  /** A counter metadata field is written only when the field can be set;
      it then receives the record's counter when that is an integer within
      the field's range, readable from where it is, keeping the field's own
      integer type. */
  lemma AssignCounterEffect(rec: Value, rp: Place, l: Leaf, tag: Tag, src: Value, sp: Place)
    requires l.field.tag != "" && ParseTag(l.field.tag) == Ok(tag)
    requires tag.meta && (tag.name == Generation || tag.name == Expiration)
    requires GetField(rec, rp, CounterField(tag.name)) == Ok((src, sp))
    ensures AssignCounter(rec, rp, l).Ok? <==>
      SeenSettable(l) && (src.VInt? || src.VUint?) && Fits(Seen(l), IntegerOf(src)) && !ReadOnly(sp)
    ensures var r := AssignCounter(rec, rp, l);
      r.Ok? ==> exists nv :: (r.value == Reattach(l.raw, nv)
        && TypeOf(nv) == TypeOf(Seen(l)) && (nv.VInt? || nv.VUint?) && IntegerOf(nv) == IntegerOf(src))
  {
    var r := AssignCounter(rec, rp, l);
    if r.Ok? {
      var nv := SetIntegerValue(Seen(l), src, sp).value;
      assert r.value == Reattach(l.raw, nv);
    }
  }

  /** Untagged fields, and fields whose tag is not a metadata directive,
      pass through both metadata passes unchanged. */
  lemma MetaPassesSkip(key: Value, kp: Place, rec: Value, rp: Place, l: Leaf)
    requires l.field.tag == "" || (ParseTag(l.field.tag).Ok? && !ParseTag(l.field.tag).value.meta)
    ensures AssignKey(key, kp, l) == Ok(l.raw)
    ensures AssignCounter(rec, rp, l) == Ok(l.raw)
  {
  }

  // ---------------------------------------------------------------------------
  // Findings

  /** A signed field receiving the record's unsigned generation: the
      library's version panics where the corrected one stores the value. */
  lemma SetIntegerValueSignedFromUnsigned()
    ensures var r := SetIntegerValueAsWritten(VInt(Int, 0), VUint(Uint32, 3), Detached);
      r.Err? && r.error.Panic?
    ensures SetIntegerValue(VInt(Int, 0), VUint(Uint32, 3), Detached) == Ok(VInt(Int, 3))
  {
  }

  /** A `uint8` field receiving generation 300: the library's version
      panics while composing the overflow message, the corrected one
      reports the overflow. */
  lemma SetIntegerValueUnsignedOverflow()
    ensures var r := SetIntegerValueAsWritten(VUint(Uint8, 0), VUint(Uint32, 300), Detached);
      r.Err? && r.error.Panic?
    ensures SetIntegerValue(VUint(Uint8, 0), VUint(Uint32, 300), Detached) == Err(Overflow(300, TUint(Uint8)))
  {
  }

  /** The correction changes only what the library's version gets wrong:
      wherever that version does not panic, the corrected one does the
      same. */
  lemma SetIntegerValueAgrees(dest: Value, src: Value, sp: Place)
    ensures var w := SetIntegerValueAsWritten(dest, src, sp);
      w.Ok? || !w.error.Panic? ==> SetIntegerValue(dest, src, sp) == w
  {
  }

  /** The pointer field `Offset *int` holding 5 and tagged `offset`,
      reached through an addressable struct. */
  function OffsetLeaf(): Leaf {
    Leaf(Field("Offset", "offset", TPtr(TInt(Int)), false), VPtr(TInt(Int), VInt(Int, 5)), Pointee)
  }

  /** The bins `{"offset": 7}`. */
  function OffsetBins(): Value {
    VMap(TString, TAny, [(VString("offset"), VIface(VInt(Int, 7)))])
  }

  lemma OffsetBinFound()
    ensures BinFor(OffsetBins(), OffsetLeaf()) == Ok(Some(VIface(VInt(Int, 7))))
  {
    ParseTagPlainName("offset");
    assert Lookup(OffsetBins().entries, "offset") == Some(VIface(VInt(Int, 7)));
  }

  /** Any non-nil pointer field, to a type other than an interface, with a
      bin it can take: the library's version panics, the corrected one
      stores the converted bin. */
  lemma AssignBinPointerPanics(bins: Value, l: Leaf, b: Value, parseTime: TimeParser)
    requires bins.VMap? && BinFor(bins, l) == Ok(Some(b))
    requires l.raw.VPtr? && l.raw.elemTy != TAny && SeenSettable(l)
    requires Convert(b, l.field.ty, parseTime).Ok?
    ensures var r := AssignBinAsWritten(bins, l, parseTime); r.Err? && r.error.Panic?
    ensures AssignBin(bins, l, parseTime) == Convert(b, l.field.ty, parseTime)
  {
  }

  /** The field `Offset *int` holding 5, tagged `offset`, with the bins
      `{"offset": 7}`: the library's version panics, the corrected one
      points the field at 7. */
  lemma AssignBinPointerField(parseTime: TimeParser)
    ensures var r := AssignBinAsWritten(OffsetBins(), OffsetLeaf(), parseTime); r.Err? && r.error.Panic?
    ensures AssignBin(OffsetBins(), OffsetLeaf(), parseTime) == Ok(VPtr(TInt(Int), VInt(Int, 7)))
  {
    var b := VIface(VInt(Int, 7));
    OffsetBinFound();
    assert Convert(b, TInt(Int), parseTime) == Ok(VInt(Int, 7));
    ConvertToPointer(b, TInt(Int), parseTime);
    AssignBinPointerPanics(OffsetBins(), OffsetLeaf(), b, parseTime);
  }

  /** The field `Offset *int` left nil, with the bins `{"offset": 7}`:
      both versions skip it, since a nil pointer leads to nothing that can
      be assigned. */
  lemma AssignBinNilPointerField(parseTime: TimeParser)
    ensures var l := OffsetLeaf().(raw := VPtr(TInt(Int), VInvalid));
      && AssignBinAsWritten(OffsetBins(), l, parseTime) == Ok(l.raw)
      && AssignBin(OffsetBins(), l, parseTime) == Ok(l.raw)
  {
    var l := OffsetLeaf().(raw := VPtr(TInt(Int), VInvalid));
    ParseTagPlainName("offset");
    assert BinFor(OffsetBins(), l).Ok?;
  }

  /** The correction changes only the field the library's version panics
      on: for a field that is not a pointer the two agree, and wherever the
      library's version does not panic the corrected one does the same. */
  lemma AssignBinAgrees(bins: Value, l: Leaf, parseTime: TimeParser)
    requires bins.VMap?
    ensures !l.raw.VPtr? ==> AssignBin(bins, l, parseTime) == AssignBinAsWritten(bins, l, parseTime)
    ensures var w := AssignBinAsWritten(bins, l, parseTime);
      w.Ok? || !w.error.Panic? ==> AssignBin(bins, l, parseTime) == w
  {
  }
}
