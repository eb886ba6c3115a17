/** Encoding and decoding are inverse for structs whose fields each map to
    a bin of their own: a struct encoded into a record, whose bins the client
    hands back as a `map[string]interface{}`, decodes into a zero value of
    its type as the struct itself. */
module RoundTrip {
  import opened Wrappers
  import opened Values
  import opened Tags
  import opened Reflect
  import opened Traverse
  import Encoder
  import Decoder

  /** The types a bin carries back unchanged: integers, text, booleans,
      slices, arrays and maps. Pointers, interfaces and structs are not
      among them: pointers and structs are flattened by the encoder, and an
      interface is never a conversion target. */
  predicate PlainType(t: Type) {
    t.TInt? || t.TUint? || t.TString? || t.TBool? || t.TSlice? || t.TArray? || t.TMap?
  }

  /** A field stored in a bin of its own: exported, not embedded, of a
      plain type, tagged with a bin name and possibly `omitempty`. */
  predicate BinField(f: Field) {
    && IsExported(f.name) && !f.embedded && PlainType(f.ty) && f.tag != ""
    && ParseTag(f.tag).Ok?
    && var g := ParseTag(f.tag).value; !g.meta && !g.omit && g.name != ""
  }

  function BinOf(f: Field): string
    requires BinField(f)
  {
    ParseTag(f.tag).value.name
  }

  /** The field holding `v` is written to its bin: it is not an empty value
      under `omitempty`. */
  predicate Written(f: Field, v: Value)
    requires BinField(f)
  {
    !(ParseTag(f.tag).value.omitempty && IsEmptyValue(v))
  }

  /** A struct type whose fields are all bin fields with distinct bin
      names. */
  predicate FlatBins(t: Type) {
    && t.TStruct?
    && (forall i :: 0 <= i < |t.fields| ==> BinField(t.fields[i]))
    && (forall i, j :: 0 <= i < j < |t.fields| ==> BinOf(t.fields[i]) != BinOf(t.fields[j]))
  }

  /** `es` lists the bins `bins` as the client's bin map holds them: each
      bin under its name, its value in an interface, and nothing else. */
  predicate ListsBins(es: seq<(Value, Value)>, bins: map<string, Value>) {
    && (forall n :: n in bins ==> exists j :: 0 <= j < |es| && es[j] == (VString(n), VIface(bins[n])))
    && (forall j :: 0 <= j < |es| ==> es[j].0.VString? && es[j].0.s in bins && es[j].1 == VIface(bins[es[j].0.s]))
  }

  // ---------------------------------------------------------------------------
  // Shape of the values involved

  /** A value of a flat type: a struct whose fields hold plain values of
      their declared types. */
  lemma FlatValue(t: Type, s: Value)
    requires FlatBins(t) && HasType(s, t)
    ensures s.VStruct? && s.fields == t.fields && |s.vals| == |s.fields| && Flat(s)
    ensures forall i :: 0 <= i < |s.vals| ==>
      WellFormed(s.vals[i]) && TypeOf(s.vals[i]) == s.fields[i].ty && !s.vals[i].VIface? && !s.vals[i].VPtr?
  {
    assert s.VStruct? && s.fields == t.fields && |s.vals| == |s.fields|;
    forall i | 0 <= i < |s.vals|
      ensures WellFormed(s.vals[i]) && TypeOf(s.vals[i]) == s.fields[i].ty && !s.vals[i].VIface? && !s.vals[i].VPtr?
      ensures !IsStructKind(Deref(ValsOf(s)[i]))
    {
      assert PlainType(t.fields[i].ty) by {
        assert BinField(t.fields[i]);
      }
      assert HasType(s.vals[i], s.fields[i].ty);
      HasTypeIsTypeOf(s.vals[i], s.fields[i].ty);
    }
  }

  /** A plain value is its own bin value, and is the zero value of its type
      when it is empty. */
  lemma PlainEmpty(v: Value)
    requires WellFormed(v) && PlainType(TypeOf(v))
    ensures IsEmptyValue(v) ==> v == Zero(TypeOf(v))
  {
    if v.VArray? {
      if IsEmptyValue(v) {
        assert Zero(TypeOf(v)).items == [];
      }
    } else {
      EmptyIsZero(v);
    }
  }

  /** A leaf of a flat struct at an assignable place. */
  lemma FlatLeaf(s: Value, i: nat)
    requires s.VStruct? && |s.vals| == |s.fields| && i < |s.fields| && BinField(s.fields[i])
    ensures var l := LeafAt(s, Pointee, i);
      && l.field == s.fields[i] && l.raw == s.vals[i]
      && !ReadOnly(l.place) && CanSet(l.place)
  {
  }

  // ---------------------------------------------------------------------------
  // Encoding

  /** How each field of a flat struct reached through a pointer is
      encoded: it is always encodable, fills no slot, and writes its own
      value to its bin unless `omitempty` drops it. */
  lemma FlatLeavesEncoding(t: Type, s: Value)
    requires FlatBins(t) && HasType(s, t)
    ensures s.VStruct? && |s.vals| == |t.fields| == |Leaves(s, Pointee)|
    ensures Encoder.Encode(VPtr(t, s)) == Encoder.FoldLeaves(Leaves(s, Pointee), Encoder.EmptyRecord())
    ensures StructValue(Boxed(VPtr(t, s))) == Ok((s, Pointee))
    ensures var ls := Leaves(s, Pointee);
      forall i :: 0 <= i < |ls| ==>
        && Encoder.Encodable(ls[i])
        && Encoder.BinName(ls[i]) == (if Written(t.fields[i], s.vals[i]) then Some(BinOf(t.fields[i])) else None)
        && Encoder.SlotName(ls[i]) == None
        && Encoder.BinValue(ls[i]) == s.vals[i]
  {
    FlatValue(t, s);
    FlatLeaves(s, Pointee);
    var ls := Leaves(s, Pointee);
    assert StructValue(Boxed(VPtr(t, s))) == Ok((s, Pointee));
    Encoder.EncodeIsFold(s, Pointee, Encoder.EmptyRecord());
    forall i | 0 <= i < |ls|
      ensures Encoder.Encodable(ls[i])
      ensures Encoder.BinName(ls[i]) == (if Written(t.fields[i], s.vals[i]) then Some(BinOf(t.fields[i])) else None)
      ensures Encoder.SlotName(ls[i]) == None
      ensures Encoder.BinValue(ls[i]) == s.vals[i]
    {
      FlatLeaf(s, i);
      PlainEmpty(s.vals[i]);
    }
  }

  /** Encoding a flat struct succeeds. */
  lemma EncodeFlatOk(t: Type, s: Value)
    requires FlatBins(t) && HasType(s, t)
    ensures Encoder.Encode(VPtr(t, s)).Ok?
  {
    FlatLeavesEncoding(t, s);
    Encoder.FoldAccepts(Leaves(s, Pointee), Encoder.EmptyRecord());
  }

  /** Among the leaves of a flat struct, field `i` alone can write its
      bin, and does so when it is written. */
  lemma FlatWriters(t: Type, s: Value, i: nat)
    requires FlatBins(t) && HasType(s, t) && i < |t.fields|
    ensures s.VStruct? && |s.vals| == |t.fields|
    ensures var ls := Leaves(s, Pointee); var n := BinOf(t.fields[i]);
      && (Encoder.WritesBin(ls, n) <==> Written(t.fields[i], s.vals[i]))
      && (Written(t.fields[i], s.vals[i]) ==> Encoder.LastBinWriter(ls, i, n))
  {
    FlatLeavesEncoding(t, s);
    var ls := Leaves(s, Pointee);
    var n := BinOf(t.fields[i]);
    if Encoder.WritesBin(ls, n) {
      var k :| 0 <= k < |ls| && Encoder.BinName(ls[k]) == Some(n);
      assert k == i;
    }
    if Written(t.fields[i], s.vals[i]) {
      assert Encoder.BinName(ls[i]) == Some(n);
      forall j | i < j < |ls| ensures Encoder.BinName(ls[j]) != Some(n) {
        assert BinOf(t.fields[i]) != BinOf(t.fields[j]);
      }
    }
  }

  /** The bin of field `i` exists exactly when the field is written, and
      then holds the field's value. */
  lemma EncodeFlatBin(t: Type, s: Value, i: nat)
    requires FlatBins(t) && HasType(s, t) && i < |t.fields|
    ensures s.VStruct? && |s.vals| == |t.fields|
    ensures var r := Encoder.Encode(VPtr(t, s)); var n := BinOf(t.fields[i]);
      && r.Ok?
      && (n in r.value.bins <==> Written(t.fields[i], s.vals[i]))
      && (n in r.value.bins ==> r.value.bins[n] == s.vals[i])
  {
    FlatLeavesEncoding(t, s);
    EncodeFlatOk(t, s);
    FlatWriters(t, s, i);
    Encoder.EncodeSpec(VPtr(t, s), BinOf(t.fields[i]));
  }

  /** Every bin is that of some field. */
  lemma EncodeFlatName(t: Type, s: Value, n: string)
    requires FlatBins(t) && HasType(s, t)
    ensures var r := Encoder.Encode(VPtr(t, s));
      r.Ok? && (n in r.value.bins ==> exists i :: 0 <= i < |t.fields| && BinOf(t.fields[i]) == n)
  {
    FlatLeavesEncoding(t, s);
    EncodeFlatOk(t, s);
    var ls := Leaves(s, Pointee);
    Encoder.EncodeSpec(VPtr(t, s), n);
    if n in Encoder.Encode(VPtr(t, s)).value.bins {
      var k :| 0 <= k < |ls| && Encoder.BinName(ls[k]) == Some(n);
      assert BinOf(t.fields[k]) == n;
    }
  }

  /** No slot is filled. */
  lemma EncodeFlatSlot(t: Type, s: Value, n: string)
    requires FlatBins(t) && HasType(s, t) && n in MetaNames
    ensures var r := Encoder.Encode(VPtr(t, s));
      r.Ok? && n in r.value.slots && r.value.slots[n] == Zero(Encoder.SlotType(n))
  {
    FlatLeavesEncoding(t, s);
    EncodeFlatOk(t, s);
    Encoder.EncodeSpec(VPtr(t, s), n);
  }

  /** Encoding a flat struct succeeds; every bin is that of one field, each
      written field's bin holds the field's value, no other field has a bin,
      and the metadata slots keep their zero values. */
  lemma EncodeFlat(t: Type, s: Value)
    requires FlatBins(t) && HasType(s, t)
    ensures s.VStruct? && |s.vals| == |t.fields|
    ensures var r := Encoder.Encode(VPtr(t, s));
      && r.Ok?
      && (forall n :: n in r.value.bins ==> exists i :: 0 <= i < |t.fields| && BinOf(t.fields[i]) == n)
      && (forall i :: 0 <= i < |t.fields| ==>
            (BinOf(t.fields[i]) in r.value.bins <==> Written(t.fields[i], s.vals[i])))
      && (forall i :: 0 <= i < |t.fields| && BinOf(t.fields[i]) in r.value.bins ==>
            r.value.bins[BinOf(t.fields[i])] == s.vals[i])
      && r.value.slots == Encoder.EmptyRecord().slots
  {
    FlatValue(t, s);
    EncodeFlatOk(t, s);
    var r := Encoder.Encode(VPtr(t, s)).value;
    forall n | n in r.bins ensures exists i :: 0 <= i < |t.fields| && BinOf(t.fields[i]) == n {
      EncodeFlatName(t, s, n);
    }
    forall i | 0 <= i < |t.fields|
      ensures BinOf(t.fields[i]) in r.bins <==> Written(t.fields[i], s.vals[i])
      ensures BinOf(t.fields[i]) in r.bins ==> r.bins[BinOf(t.fields[i])] == s.vals[i]
    {
      EncodeFlatBin(t, s, i);
    }
    EncodeFlatSlots(t, s);
  }

  /** Encoding a flat struct leaves the metadata slots at their zero
      values. */
  lemma EncodeFlatSlots(t: Type, s: Value)
    requires FlatBins(t) && HasType(s, t)
    ensures var r := Encoder.Encode(VPtr(t, s)); r.Ok? && r.value.slots == Encoder.EmptyRecord().slots
  {
    FlatValue(t, s);
    EncodeFlatOk(t, s);
    var r := Encoder.Encode(VPtr(t, s)).value;
    Encoder.EncodeSpec(VPtr(t, s), "");
    forall n | n in MetaNames ensures n in r.slots && r.slots[n] == Encoder.EmptyRecord().slots[n] {
      EncodeFlatSlot(t, s, n);
    }
  }

  // ---------------------------------------------------------------------------
  // Decoding

  /** Looking a bin up in a listing finds exactly the listed bins. */
  lemma LookupListed(es: seq<(Value, Value)>, bins: map<string, Value>, n: string)
    requires ListsBins(es, bins)
    ensures Decoder.Lookup(es, n) == (if n in bins then Some(VIface(bins[n])) else None)
  {
    var r := Decoder.Lookup(es, n);
    if n in bins {
      var j :| 0 <= j < |es| && es[j] == (VString(n), VIface(bins[n]));
      assert Unbox(es[j].0) == VString(n);
    }
    if r.Some? {
      var j :| 0 <= j < |es| && Unbox(es[j].0) == VString(n) && r.value == es[j].1;
      assert es[j].0.VString?;
    }
  }

  /** A bin field looks up the bin its tag names. */
  lemma BinForField(es: seq<(Value, Value)>, l: Leaf)
    requires BinField(l.field)
    ensures Decoder.BinFor(VMap(TString, TAny, es), l) == Ok(Decoder.Lookup(es, BinOf(l.field)))
  {
  }

  /** A plain value in an interface converts back to its own type as
      itself. */
  lemma ConvertBoxed(v: Value, parseTime: TimeParser)
    requires WellFormed(v) && PlainType(TypeOf(v))
    ensures Convert(VIface(v), TypeOf(v), parseTime) == Ok(v)
  {
  }

  lemma AssignBinFound(es: seq<(Value, Value)>, l: Leaf, v: Value, parseTime: TimeParser)
    requires BinField(l.field) && Decoder.Lookup(es, BinOf(l.field)) == Some(VIface(v)) && SeenSettable(l)
    requires !l.raw.VPtr?
    requires Convert(VIface(v), l.field.ty, parseTime) == Ok(v)
    ensures Decoder.AssignBin(VMap(TString, TAny, es), l, parseTime) == Ok(v)
  {
    BinForField(es, l);
  }

  lemma AssignBinMissing(es: seq<(Value, Value)>, l: Leaf, parseTime: TimeParser)
    requires BinField(l.field) && Decoder.Lookup(es, BinOf(l.field)) == None
    ensures Decoder.AssignBin(VMap(TString, TAny, es), l, parseTime) == Ok(l.raw)
  {
    BinForField(es, l);
  }

  /** Field `i` of the zero value receives the value field `i` of `s` was
      encoded with: its bin when written, and otherwise the zero value it
      already holds, which is then what `s` holds. */
  lemma FlatBinAssigned(t: Type, s: Value, rec: Encoder.Record, es: seq<(Value, Value)>, i: nat,
                        parseTime: TimeParser)
    requires FlatBins(t) && HasType(s, t) && i < |t.fields|
    requires Encoder.Encode(VPtr(t, s)) == Ok(rec) && ListsBins(es, rec.bins)
    ensures s.VStruct? && |s.vals| == |t.fields|
    ensures Decoder.AssignBin(VMap(TString, TAny, es), LeafAt(Zero(t), Pointee, i), parseTime) == Ok(s.vals[i])
  {
    var f := t.fields[i];
    var z := Zero(t);
    assert z.VStruct? && z.fields == t.fields && |z.vals| == |t.fields| && z.vals[i] == Zero(f.ty);
    FlatValue(t, s);
    var v := s.vals[i];
    assert WellFormed(v) && TypeOf(v) == f.ty;
    assert BinField(f);
    EncodeFlatBin(t, s, i);
    var l := LeafAt(z, Pointee, i);
    FlatLeaf(z, i);
    LookupListed(es, rec.bins, BinOf(f));
    if BinOf(f) !in rec.bins {
      PlainEmpty(v);
    }
    ZeroFieldAssigned(es, l, v, parseTime);
  }

  /** A field holding its zero value receives its bin, or keeps the zero
      value when it has none. */
  lemma ZeroFieldAssigned(es: seq<(Value, Value)>, l: Leaf, v: Value, parseTime: TimeParser)
    requires BinField(l.field) && l.raw == Zero(l.field.ty) && !ReadOnly(l.place) && CanSet(l.place)
    requires WellFormed(v) && TypeOf(v) == l.field.ty
    requires Decoder.Lookup(es, BinOf(l.field)) in {None, Some(VIface(v))}
    requires Decoder.Lookup(es, BinOf(l.field)) == None ==> v == l.raw
    ensures Decoder.AssignBin(VMap(TString, TAny, es), l, parseTime) == Ok(v)
  {
    assert SeenSettable(l);
    if Decoder.Lookup(es, BinOf(l.field)) == None {
      AssignBinMissing(es, l, parseTime);
    } else {
      ConvertBoxed(v, parseTime);
      AssignBinFound(es, l, v, parseTime);
    }
  }

  /** A pass over a flat struct reached through a pointer replaces each
      field by what the action makes of it. */
  lemma PassFlat(t: Type, x: Value, act: Action, nvs: seq<Value>)
    requires FlatBins(t) && HasType(x, t)
    requires |nvs| == |t.fields|
    requires forall i :: 0 <= i < |t.fields| ==> act(LeafAt(x, Pointee, i)) == Ok(nvs[i])
    ensures Decoder.Pass(VPtr(t, x), act) == Ok(VPtr(t, VStruct(t.name, t.fields, nvs)))
  {
    FlatValue(t, x);
    WalkFlat(x, Pointee, act, nvs);
    assert StructValue(Boxed(VPtr(t, x))) == Ok((x, Pointee));
  }

  /** Decoding the bins of an encoded flat struct into a zero value of its
      type gives back the struct. */
  lemma DecodeBinsFlat(t: Type, s: Value, rec: Encoder.Record, es: seq<(Value, Value)>, parseTime: TimeParser)
    requires FlatBins(t) && HasType(s, t)
    requires Encoder.Encode(VPtr(t, s)) == Ok(rec) && ListsBins(es, rec.bins)
    ensures Decoder.DecodeBins(VMap(TString, TAny, es), VPtr(t, Zero(t)), parseTime) == Ok(VPtr(t, s))
  {
    FlatValue(t, s);
    var z := Zero(t);
    ZeroHasType(t);
    var bins := VMap(TString, TAny, es);
    var act: Action := l => Decoder.AssignBin(bins, l, parseTime);
    forall i | 0 <= i < |t.fields| ensures act(LeafAt(z, Pointee, i)) == Ok(s.vals[i]) {
      FlatBinAssigned(t, s, rec, es, i, parseTime);
    }
    PassFlat(t, z, act, s.vals);
    assert VStruct(t.name, t.fields, s.vals) == s;
  }

  /** A pass that leaves bin fields alone leaves a flat struct alone. */
  lemma PassFlatUnchanged(t: Type, x: Value, act: Action)
    requires FlatBins(t) && HasType(x, t)
    requires forall l: Leaf :: BinField(l.field) ==> act(l) == Ok(l.raw)
    ensures Decoder.Pass(VPtr(t, x), act) == Ok(VPtr(t, x))
  {
    FlatValue(t, x);
    FlatLeaves(x, Pointee);
    var ls := Leaves(x, Pointee);
    forall k | 0 <= k < |ls| ensures act(ls[k]) == Ok(ls[k].raw) {
      assert ls[k] == LeafAt(x, Pointee, k);
      assert BinField(ls[k].field);
    }
    WalkUnchanged(x, Pointee, act);
    assert StructValue(Boxed(VPtr(t, x))) == Ok((x, Pointee));
  }

  lemma KeyLeafAlone(key: Value, kp: Place, l: Leaf)
    requires BinField(l.field)
    ensures Decoder.AssignKey(key, kp, l) == Ok(l.raw)
  {
  }

  lemma CounterLeafAlone(rec: Value, rp: Place, l: Leaf)
    requires BinField(l.field)
    ensures Decoder.AssignCounter(rec, rp, l) == Ok(l.raw)
  {
  }

  /** The key and counters passes leave a struct without metadata fields
      alone. */
  lemma MetaPassesFlat(t: Type, x: Value, key: Value, kp: Place, rec: Value, rp: Place)
    requires FlatBins(t) && HasType(x, t)
    ensures Decoder.DecodeKey(key, kp, VPtr(t, x)) == Ok(VPtr(t, x))
    ensures Decoder.DecodeRecord(rec, rp, VPtr(t, x)) == Ok(VPtr(t, x))
  {
    var keyAct: Action := l => Decoder.AssignKey(key, kp, l);
    var counterAct: Action := l => Decoder.AssignCounter(rec, rp, l);
    forall l: Leaf | BinField(l.field) ensures keyAct(l) == Ok(l.raw) {
      KeyLeafAlone(key, kp, l);
    }
    forall l: Leaf | BinField(l.field) ensures counterAct(l) == Ok(l.raw) {
      CounterLeafAlone(rec, rp, l);
    }
    PassFlatUnchanged(t, x, keyAct);
    PassFlatUnchanged(t, x, counterAct);
  }

  // ---------------------------------------------------------------------------
  // The client's record

  /** The fields of the client's record: the key (a pointer), the bins, and
      the generation and expiration counters. */
  function RecordFields(): seq<Field> {
    [ Field(Decoder.KeyField, "", TPtr(TKey), false),
      Field(Decoder.BinsField, "", TMap(TString, TAny), false),
      Field(Decoder.GenerationField, "", TUint(Uint32), false),
      Field(Decoder.ExpirationField, "", TUint(Uint32), false) ]
  }

  const RecordType := TStruct("Record", RecordFields())

  /** A record as the client returns it. */
  function ClientRecord(key: Value, es: seq<(Value, Value)>, generation: int, expiration: int): Value {
    VStruct("Record", RecordFields(),
      [VPtr(TKey, key), VMap(TString, TAny, es), VUint(Uint32, generation), VUint(Uint32, expiration)])
  }

  /** What the fields of the client's record hold, once dereferenced. */
  lemma RecordFieldAt(key: Value, es: seq<(Value, Value)>, generation: int, expiration: int, i: nat)
    requires i < 4
    ensures var r := ClientRecord(key, es, generation, expiration);
      && |FieldsOf(r)| == 4
      && FieldsOf(r)[i].name == [Decoder.KeyField, Decoder.BinsField, Decoder.GenerationField, Decoder.ExpirationField][i]
      && FieldValueDeref(r, Pointee, i).0
         == [key, VMap(TString, TAny, es), VUint(Uint32, generation), VUint(Uint32, expiration)][i]
  {
  }

  /** A bins field of a record hands its map to the bins pass. */
  lemma BinsFieldStep(r: Value, rp: Place, inner: bool, i: nat, v: Value, w: Value, parseTime: TimeParser)
    requires i < |FieldsOf(r)| && FieldsOf(r)[i].name == Decoder.BinsField
    requires var fv := FieldValueDeref(r, rp, i).0; fv.VMap? && Decoder.DecodeBins(fv, v, parseTime) == Ok(w)
    ensures Decoder.DecodeField(r, rp, inner, i, v, parseTime) == Ok((w, true))
  {
  }

  /** A record's bins field runs the bins pass, and marks a record. */
  lemma BinsFieldFlat(t: Type, s: Value, rec: Encoder.Record, r: Value, i: nat, es: seq<(Value, Value)>,
                      parseTime: TimeParser)
    requires FlatBins(t) && HasType(s, t)
    requires Encoder.Encode(VPtr(t, s)) == Ok(rec) && ListsBins(es, rec.bins)
    requires i < |FieldsOf(r)| && FieldsOf(r)[i].name == Decoder.BinsField
    requires FieldValueDeref(r, Pointee, i).0 == VMap(TString, TAny, es)
    ensures Decoder.DecodeField(r, Pointee, false, i, VPtr(t, Zero(t)), parseTime) == Ok((VPtr(t, s), true))
  {
    DecodeBinsFlat(t, s, rec, es, parseTime);
    BinsFieldStep(r, Pointee, false, i, VPtr(t, Zero(t)), VPtr(t, s), parseTime);
  }

  /** A record's key field runs the key pass, which leaves a flat struct
      alone. */
  lemma KeyFieldFlat(t: Type, x: Value, r: Value, i: nat, parseTime: TimeParser)
    requires FlatBins(t) && HasType(x, t)
    requires i < |FieldsOf(r)| && FieldsOf(r)[i].name == Decoder.KeyField
    ensures Decoder.DecodeField(r, Pointee, false, i, VPtr(t, x), parseTime) == Ok((VPtr(t, x), false))
  {
    var (fv, fp) := FieldValueDeref(r, Pointee, i);
    MetaPassesFlat(t, x, fv, fp, r, Pointee);
  }

  /** A record's counter fields run the counters pass over the record
      itself, which leaves a flat struct alone. */
  lemma CounterFieldFlat(t: Type, x: Value, r: Value, i: nat, parseTime: TimeParser)
    requires FlatBins(t) && HasType(x, t)
    requires i < |FieldsOf(r)| && FieldsOf(r)[i].name in {Decoder.GenerationField, Decoder.ExpirationField}
    ensures Decoder.DecodeField(r, Pointee, false, i, VPtr(t, x), parseTime) == Ok((VPtr(t, x), false))
  {
    var (fv, fp) := FieldValueDeref(r, Pointee, i);
    MetaPassesFlat(t, x, fv, fp, r, Pointee);
  }

  /** A pointer to the client's record reaches the record, at an
      addressable place. */
  lemma RecordIsStruct(key: Value, es: seq<(Value, Value)>, generation: int, expiration: int)
    ensures var r := ClientRecord(key, es, generation, expiration);
      StructValue(Boxed(VPtr(RecordType, r))) == Ok((r, Pointee))
  {
  }

  /** A top-level record of four fields whose key field leaves `v0` alone,
      whose bins field turns it into `v1`, and whose counter fields leave
      `v1` alone decodes `v0` into `v1`. */
  lemma FourFieldRecord(r: Value, rp: Place, v0: Value, v1: Value, parseTime: TimeParser)
    requires |FieldsOf(r)| == 4
    requires Decoder.DecodeField(r, rp, false, 0, v0, parseTime) == Ok((v0, false))
    requires Decoder.DecodeField(r, rp, false, 1, v0, parseTime) == Ok((v1, true))
    requires Decoder.DecodeField(r, rp, false, 2, v1, parseTime) == Ok((v1, false))
    requires Decoder.DecodeField(r, rp, false, 3, v1, parseTime) == Ok((v1, false))
    ensures Decoder.DecodeStruct(r, rp, false, v0, parseTime) == Ok(v1)
  {
    assert Decoder.DecodeFields(r, rp, false, 4, v1, true, parseTime) == Ok((v1, true));
    assert Decoder.DecodeFields(r, rp, false, 3, v1, true, parseTime) == Ok((v1, true));
    assert Decoder.DecodeFields(r, rp, false, 2, v1, true, parseTime) == Ok((v1, true));
    assert Decoder.DecodeFields(r, rp, false, 1, v0, false, parseTime) == Ok((v1, true));
  }

  /** The round trip: a flat struct, encoded, stored, and read back as a
      record holding its bins, decodes into a zero value of its type as the
      struct itself, whatever the record's key and counters. */
  lemma EncodeDecode(t: Type, s: Value, rec: Encoder.Record, es: seq<(Value, Value)>,
                     key: Value, generation: int, expiration: int, parseTime: TimeParser)
    requires FlatBins(t) && HasType(s, t)
    requires Encoder.Encode(VPtr(t, s)) == Ok(rec) && ListsBins(es, rec.bins)
    ensures Decoder.Decode(VPtr(RecordType, ClientRecord(key, es, generation, expiration)),
                           VPtr(t, Zero(t)), parseTime) == Ok(VPtr(t, s))
  {
    var r := ClientRecord(key, es, generation, expiration);
    var z := Zero(t);
    ZeroHasType(t);
    RecordIsStruct(key, es, generation, expiration);
    RecordFieldAt(key, es, generation, expiration, 0);
    RecordFieldAt(key, es, generation, expiration, 1);
    RecordFieldAt(key, es, generation, expiration, 2);
    RecordFieldAt(key, es, generation, expiration, 3);
    KeyFieldFlat(t, z, r, 0, parseTime);
    BinsFieldFlat(t, s, rec, r, 1, es, parseTime);
    CounterFieldFlat(t, s, r, 2, parseTime);
    CounterFieldFlat(t, s, r, 3, parseTime);
    FourFieldRecord(r, Pointee, VPtr(t, z), VPtr(t, s), parseTime);
    assert Decoder.Decode(VPtr(RecordType, r), VPtr(t, z), parseTime)
        == Decoder.DecodeStruct(r, Pointee, false, VPtr(t, z), parseTime);
  }
}
