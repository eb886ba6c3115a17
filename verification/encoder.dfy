/** Encoding a struct into a record. Fields tagged `meta,<name>` fill the
    record's metadata slots (generation, expiration, namespace, set name,
    digest, user key); every other tagged field becomes a bin named by its
    tag, unless `omit` (always) or `omitempty` (when empty) drops it. A field
    holding a struct, after one pointer dereference, is flattened into the
    same record whatever its tag. */
module Encoder {
  import opened Wrappers
  import opened Values
  import opened Errors
  import opened Tags
  import opened Reflect
  import opened Traverse

  /** The declared type of each metadata slot of a record: 32-bit unsigned
      counters, text, the 20-byte digest and an arbitrary user key. */
  function SlotType(n: string): Type
    requires n in MetaNames
  {
    if n == Generation || n == Expiration then TUint(Uint32)
    else if n == Namespace || n == SetName then TString
    else if n == Digest then TArray(DigestLength, TUint(Uint8))
    else TAny
  }

  /** An encoded record: the metadata slots by metadata name, and the bins
      by bin name. A bin holds what an `interface{}` holds, so never an
      interface value itself. */
  datatype Record = Record(slots: map<string, Value>, bins: map<string, Value>)

  /** Every metadata slot is present and holds a value of its declared
      type. */
  predicate SlotsTyped(r: Record) {
    && r.slots.Keys == MetaNames
    && forall n :: n in r.slots ==> r.slots[n] != VInvalid && TypeOf(r.slots[n]) == SlotType(n)
  }

  /** The record encoding starts from: zero slots and no bins. */
  function EmptyRecord(): (r: Record)
    ensures SlotsTyped(r) && r.bins == map[]
    ensures forall n :: n in MetaNames ==> r.slots[n] == Zero(SlotType(n))
  {
    Record(map n | n in MetaNames :: Zero(SlotType(n)), map[])
  }

  // ---------------------------------------------------------------------------
  // One field

  /** Copies a metadata field into slot `name`. An empty field leaves the
      slot alone; otherwise the field's type must be the slot's, and the
      field must not have been read through a non-exported field. */
  function SetMetadata(v: Value, p: Place, name: string, rec: Record): (r: Result<Record, Error>)
    requires name in MetaNames
    ensures r.Ok? ==> r.value.bins == rec.bins
    ensures r.Ok? ==> forall n :: n != name && n in rec.slots ==> n in r.value.slots && r.value.slots[n] == rec.slots[n]
    ensures r.Ok? ==> r.value.slots.Keys == rec.slots.Keys + (if IsEmptyValue(v) then {} else {name})
    ensures r.Ok? && !IsEmptyValue(v) ==> r.value.slots[name] == v
    ensures r.Ok? && IsEmptyValue(v) ==> r.value == rec
    ensures (r.Ok? <==> IsEmptyValue(v) || (TypeOf(v) == SlotType(name) && !ReadOnly(p)))
    ensures r.Err? ==> r.error.MetaTypeMismatch? || r.error.Panic?
  {
    if IsEmptyValue(v) then Ok(rec)
    else if TypeOf(v) != SlotType(name) then Err(MetaTypeMismatch(name, TypeOf(v), SlotType(name)))
    else if ReadOnly(p) then Err(Panic("Set using a value obtained through a non-exported field"))
    else Ok(rec.(slots := rec.slots[name := v]))
  }

  /** The encoding of one field that does not hold a struct: untagged
      fields are skipped, metadata fields go to their slot, the rest to a
      bin unless omitted; an empty field stores the zero value of its
      declared type (a nil pointer for a pointer field). Reading a non-empty
      bin through a non-exported field panics. */
  function LeafStep(l: Leaf, rec: Record): (r: Result<Record, Error>)
    ensures r.Err? ==> r.error.InvalidTag? || r.error.MetaTypeMismatch? || r.error.Panic?
  {
    var f := l.field;
    var v := Seen(l);
    var p := SeenPlace(l);
    if f.tag == "" then Ok(rec)
    else
      var tag :- ParseTag(f.tag);
      if tag.meta then
        if tag.name in MetaNames then SetMetadata(v, p, tag.name, rec) else Ok(rec)
      else if tag.omit || (tag.omitempty && IsEmptyValue(v)) then Ok(rec)
      else if tag.name == "" then Ok(rec)
      else if IsEmptyValue(v) then Ok(rec.(bins := rec.bins[tag.name := Unbox(Zero(f.ty))]))
      else if ReadOnly(p) then Err(Panic("Interface on a value obtained through a non-exported field"))
      else Ok(rec.(bins := rec.bins[tag.name := Unbox(v)]))
  }

  // ---------------------------------------------------------------------------
  // The struct

  /** Encodes fields `i..` of struct `s` at place `p` into `rec`, stopping
      at the first failure. */
  function EncodeFields(s: Value, p: Place, i: nat, rec: Record): (r: Result<Record, Error>)
    ensures r.Err? ==> r.error.InvalidTag? || r.error.MetaTypeMismatch? || r.error.Panic?
    decreases s, |FieldsOf(s)| - i
  {
    if i >= |FieldsOf(s)| then Ok(rec)
    else
      var (fv, fp) := FieldValueDeref(s, p, i);
      assert i < |s.vals| ==> fv == Deref(s.vals[i]);
      var rec' :- (if IsStructKind(fv) then EncodeFields(fv, fp, 0, rec) else LeafStep(LeafAt(s, p, i), rec));
      EncodeFields(s, p, i + 1, rec')
  }

  /** Encodes `v`, a struct or a pointer to one, into a fresh record. */
  function Encode(v: Value): (r: Result<Record, Error>)
    ensures var x := Unbox(v);
      r == Err(InvalidSourceType) <==> !(IsStructKind(x) || (x.VPtr? && IsStructKind(x.target)))
  {
    var (s, p) :- StructValue(Boxed(v));
    EncodeFields(s, p, 0, EmptyRecord())
  }

  // ---------------------------------------------------------------------------
  // The reference: a fold over the leaves

  /** The leaves encoded one after the other. */
  function FoldLeaves(ls: seq<Leaf>, rec: Record): Result<Record, Error> {
    if |ls| == 0 then Ok(rec)
    else
      var r :- LeafStep(ls[0], rec);
      FoldLeaves(ls[1..], r)
  }

  lemma {:induction false} FoldAppend(a: seq<Leaf>, b: seq<Leaf>, rec: Record)
    ensures FoldLeaves(a + b, rec) == (var r :- FoldLeaves(a, rec); FoldLeaves(b, r))
  {
    if |a| == 0 {
      assert a + b == b;
    } else {
      assert (a + b)[1..] == a[1..] + b;
      var st := LeafStep(a[0], rec);
      if st.Ok? {
        FoldAppend(a[1..], b, st.value);
      }
    }
  }

  /** Encoding the fields of a struct one by one, descending into nested
      structs, is encoding its flattened leaves in order. */
  lemma {:induction false} EncodeIsFold(s: Value, p: Place, rec: Record)
    ensures EncodeFields(s, p, 0, rec) == FoldLeaves(Leaves(s, p), rec)
    decreases s, 1
  {
    EncodeFromIsFold(s, p, 0, rec);
  }

  lemma {:induction false} EncodeFromIsFold(s: Value, p: Place, i: nat, rec: Record)
    ensures EncodeFields(s, p, i, rec) == FoldLeaves(LeavesFrom(s, p, i), rec)
    decreases s, 0, |FieldsOf(s)| - i
  {
    if i < |FieldsOf(s)| {
      var l := LeafAt(s, p, i);
      var (fv, fp) := FieldValueDeref(s, p, i);
      assert i < |s.vals| ==> fv == Deref(s.vals[i]);
      var head := if IsStructKind(fv) then Leaves(fv, fp) else [l];
      var tail := LeavesFrom(s, p, i + 1);
      assert LeavesFrom(s, p, i) == head + tail;
      FoldAppend(head, tail, rec);
      var st := if IsStructKind(fv) then EncodeFields(fv, fp, 0, rec) else LeafStep(l, rec);
      if IsStructKind(fv) {
        EncodeIsFold(fv, fp, rec);
      } else {
        assert head[1..] == [];
      }
      if st.Ok? {
        EncodeFromIsFold(s, p, i + 1, st.value);
      }
    }
  }

  // ---------------------------------------------------------------------------
  // What the fold produces

  /** The bin a leaf is encoded as, if any: a non-empty name from a tag that
      parses to a non-metadata directive, when neither `omit` nor
      `omitempty` on an empty value drops it. */
  function BinName(l: Leaf): Option<string> {
    if l.field.tag == "" then None
    else
      match ParseTag(l.field.tag)
      case Err(_) => None
      case Ok(t) =>
        if t.meta || t.omit || (t.omitempty && IsEmptyValue(Seen(l))) || t.name == "" then None
        else Some(t.name)
  }

  /** What a bin-writing leaf stores: what it holds, or when that is empty,
      the zero value of its declared type. */
  function BinValue(l: Leaf): Value {
    if IsEmptyValue(Seen(l)) then Unbox(Zero(l.field.ty)) else Unbox(Seen(l))
  }

  /** The slot a leaf fills, if any: a known metadata name after `meta`,
      for a non-empty value. */
  function SlotName(l: Leaf): Option<string> {
    if l.field.tag == "" then None
    else
      match ParseTag(l.field.tag)
      case Err(_) => None
      case Ok(t) =>
        if t.meta && t.name in MetaNames && !IsEmptyValue(Seen(l)) then Some(t.name) else None
  }

  /** A leaf encodes without failure: its tag parses, a metadata value it
      stores has the slot's type, and nothing it stores was read through a
      non-exported field. */
  predicate Encodable(l: Leaf) {
    l.field.tag == "" ||
    (ParseTag(l.field.tag).Ok? &&
     (SlotName(l).Some? ==> TypeOf(Seen(l)) == SlotType(SlotName(l).value) && !ReadOnly(SeenPlace(l))) &&
     (BinName(l).Some? && !IsEmptyValue(Seen(l)) ==> !ReadOnly(SeenPlace(l))))
  }

  /** One leaf: it fails exactly when it is not encodable; otherwise it
      writes its bin or its slot and nothing else. */
  lemma LeafStepEffect(l: Leaf, rec: Record)
    ensures var r := LeafStep(l, rec);
      && (r.Ok? <==> Encodable(l))
      && (r.Ok? ==> r.value.bins == (if BinName(l).Some? then rec.bins[BinName(l).value := BinValue(l)] else rec.bins))
      && (r.Ok? ==> r.value.slots == (if SlotName(l).Some? then rec.slots[SlotName(l).value := Seen(l)] else rec.slots))
  {
    if l.field.tag != "" && ParseTag(l.field.tag).Ok? {
      var t := ParseTag(l.field.tag).value;
      if t.meta && t.name in MetaNames && !IsEmptyValue(Seen(l)) {
        var r := SetMetadata(Seen(l), SeenPlace(l), t.name, rec);
        if r.Ok? {
          assert r.value.slots == rec.slots[t.name := Seen(l)];
        }
      }
    }
  }

  /** The fold succeeds exactly when every leaf is encodable. */
  lemma {:induction false} FoldAccepts(ls: seq<Leaf>, rec: Record)
    ensures FoldLeaves(ls, rec).Ok? <==> forall k :: 0 <= k < |ls| ==> Encodable(ls[k])
  {
    if |ls| > 0 {
      LeafStepEffect(ls[0], rec);
      var st := LeafStep(ls[0], rec);
      if st.Ok? {
        FoldAccepts(ls[1..], st.value);
        assert forall k :: 1 <= k < |ls| ==> ls[k] == ls[1..][k - 1];
      }
    }
  }

  /** Some leaf is encoded as bin `n`. */
  predicate WritesBin(ls: seq<Leaf>, n: string) {
    exists k :: 0 <= k < |ls| && BinName(ls[k]) == Some(n)
  }

  /** Leaf `k` is the last one encoded as bin `n`. */
  predicate LastBinWriter(ls: seq<Leaf>, k: nat, n: string) {
    k < |ls| && BinName(ls[k]) == Some(n) && forall j :: k < j < |ls| ==> BinName(ls[j]) != Some(n)
  }

  /** Some leaf fills slot `n`. */
  predicate WritesSlot(ls: seq<Leaf>, n: string) {
    exists k :: 0 <= k < |ls| && SlotName(ls[k]) == Some(n)
  }

  /** Leaf `k` is the last one filling slot `n`. */
  predicate LastSlotWriter(ls: seq<Leaf>, k: nat, n: string) {
    k < |ls| && SlotName(ls[k]) == Some(n) && forall j :: k < j < |ls| ==> SlotName(ls[j]) != Some(n)
  }

  lemma WritesBinCons(ls: seq<Leaf>, n: string)
    requires |ls| > 0
    ensures WritesBin(ls, n) <==> BinName(ls[0]) == Some(n) || WritesBin(ls[1..], n)
  {
    if WritesBin(ls, n) && BinName(ls[0]) != Some(n) {
      var k :| 0 <= k < |ls| && BinName(ls[k]) == Some(n);
      assert ls[1..][k - 1] == ls[k];
    }
    if WritesBin(ls[1..], n) {
      var k :| 0 <= k < |ls[1..]| && BinName(ls[1..][k]) == Some(n);
      assert ls[k + 1] == ls[1..][k];
    }
  }

  lemma WritesSlotCons(ls: seq<Leaf>, n: string)
    requires |ls| > 0
    ensures WritesSlot(ls, n) <==> SlotName(ls[0]) == Some(n) || WritesSlot(ls[1..], n)
  {
    if WritesSlot(ls, n) && SlotName(ls[0]) != Some(n) {
      var k :| 0 <= k < |ls| && SlotName(ls[k]) == Some(n);
      assert ls[1..][k - 1] == ls[k];
    }
    if WritesSlot(ls[1..], n) {
      var k :| 0 <= k < |ls[1..]| && SlotName(ls[1..][k]) == Some(n);
      assert ls[k + 1] == ls[1..][k];
    }
  }

  /** The bins of the fold are those of `rec` and those some leaf writes. */
  lemma {:induction false} FoldBinNames(ls: seq<Leaf>, rec: Record, n: string)
    requires FoldLeaves(ls, rec).Ok?
    ensures n in FoldLeaves(ls, rec).value.bins <==> n in rec.bins || WritesBin(ls, n)
  {
    if |ls| > 0 {
      LeafStepEffect(ls[0], rec);
      FoldBinNames(ls[1..], LeafStep(ls[0], rec).value, n);
      WritesBinCons(ls, n);
    }
  }

  /** A bin no leaf writes keeps its value. */
  lemma {:induction false} FoldBinKept(ls: seq<Leaf>, rec: Record, n: string)
    requires FoldLeaves(ls, rec).Ok? && n in rec.bins && !WritesBin(ls, n)
    ensures n in FoldLeaves(ls, rec).value.bins && FoldLeaves(ls, rec).value.bins[n] == rec.bins[n]
  {
    FoldBinNames(ls, rec, n);
    if |ls| > 0 {
      LeafStepEffect(ls[0], rec);
      WritesBinCons(ls, n);
      FoldBinKept(ls[1..], LeafStep(ls[0], rec).value, n);
    }
  }

  /** A written bin holds the value of the last leaf writing it. */
  lemma {:induction false} FoldBinLast(ls: seq<Leaf>, rec: Record, n: string, k: nat)
    requires FoldLeaves(ls, rec).Ok? && LastBinWriter(ls, k, n)
    ensures n in FoldLeaves(ls, rec).value.bins && FoldLeaves(ls, rec).value.bins[n] == BinValue(ls[k])
  {
    var st := LeafStep(ls[0], rec).value;
    assert FoldLeaves(ls, rec) == FoldLeaves(ls[1..], st);
    if k == 0 {
      LeafStepEffect(ls[0], rec);
      assert !WritesBin(ls[1..], n) by {
        forall j | 0 <= j < |ls[1..]| ensures BinName(ls[1..][j]) != Some(n) {
          assert ls[1..][j] == ls[j + 1];
        }
      }
      FoldBinKept(ls[1..], st, n);
    } else {
      assert LastBinWriter(ls[1..], k - 1, n) by {
        forall j | k - 1 < j < |ls[1..]| ensures BinName(ls[1..][j]) != Some(n) {
          assert ls[1..][j] == ls[j + 1];
        }
      }
      FoldBinLast(ls[1..], st, n, k - 1);
    }
  }

  /** The slots of the fold are those of `rec` and those some leaf fills. */
  lemma {:induction false} FoldSlotNames(ls: seq<Leaf>, rec: Record, n: string)
    requires FoldLeaves(ls, rec).Ok?
    ensures n in FoldLeaves(ls, rec).value.slots <==> n in rec.slots || WritesSlot(ls, n)
  {
    if |ls| > 0 {
      LeafStepEffect(ls[0], rec);
      FoldSlotNames(ls[1..], LeafStep(ls[0], rec).value, n);
      WritesSlotCons(ls, n);
    }
  }

  /** A slot no leaf fills keeps its value. */
  lemma {:induction false} FoldSlotKept(ls: seq<Leaf>, rec: Record, n: string)
    requires FoldLeaves(ls, rec).Ok? && n in rec.slots && !WritesSlot(ls, n)
    ensures n in FoldLeaves(ls, rec).value.slots && FoldLeaves(ls, rec).value.slots[n] == rec.slots[n]
  {
    FoldSlotNames(ls, rec, n);
    if |ls| > 0 {
      LeafStepEffect(ls[0], rec);
      WritesSlotCons(ls, n);
      FoldSlotKept(ls[1..], LeafStep(ls[0], rec).value, n);
    }
  }

  /** A filled slot holds the value of the last leaf filling it. */
  lemma {:induction false} FoldSlotLast(ls: seq<Leaf>, rec: Record, n: string, k: nat)
    requires FoldLeaves(ls, rec).Ok? && LastSlotWriter(ls, k, n)
    ensures n in FoldLeaves(ls, rec).value.slots && FoldLeaves(ls, rec).value.slots[n] == Seen(ls[k])
  {
    var st := LeafStep(ls[0], rec).value;
    assert FoldLeaves(ls, rec) == FoldLeaves(ls[1..], st);
    if k == 0 {
      LeafStepEffect(ls[0], rec);
      assert !WritesSlot(ls[1..], n) by {
        forall j | 0 <= j < |ls[1..]| ensures SlotName(ls[1..][j]) != Some(n) {
          assert ls[1..][j] == ls[j + 1];
        }
      }
      FoldSlotKept(ls[1..], st, n);
    } else {
      assert LastSlotWriter(ls[1..], k - 1, n) by {
        forall j | k - 1 < j < |ls[1..]| ensures SlotName(ls[1..][j]) != Some(n) {
          assert ls[1..][j] == ls[j + 1];
        }
      }
      FoldSlotLast(ls[1..], st, n, k - 1);
    }
  }

  /** The fold keeps every slot at its declared type. */
  lemma {:induction false} FoldSlotsTyped(ls: seq<Leaf>, rec: Record)
    requires SlotsTyped(rec)
    ensures FoldLeaves(ls, rec).Ok? ==> SlotsTyped(FoldLeaves(ls, rec).value)
  {
    if |ls| > 0 {
      LeafStepEffect(ls[0], rec);
      var st := LeafStep(ls[0], rec);
      if st.Ok? {
        FoldSlotsTyped(ls[1..], st.value);
      }
    }
  }

  /** Encoding a struct argument, stated over its flattened leaves: it
      succeeds exactly when every leaf is encodable; the bins are exactly
      the names some leaf writes, each holding the value of the last leaf
      writing it; a slot holds the value of the last leaf filling it, or
      its zero value when none does; and every slot has its declared
      type. */
  lemma EncodeSpec(v: Value, n: string)
    requires StructValue(Boxed(v)).Ok?
    ensures var sp := StructValue(Boxed(v)).value; var ls := Leaves(sp.0, sp.1); var r := Encode(v);
      && (r.Ok? <==> forall k :: 0 <= k < |ls| ==> Encodable(ls[k]))
      && (r.Ok? ==> SlotsTyped(r.value))
      && (r.Ok? ==> (n in r.value.bins <==> WritesBin(ls, n)))
      && (r.Ok? ==> forall k: nat :: LastBinWriter(ls, k, n) ==> r.value.bins[n] == BinValue(ls[k]))
      && (r.Ok? && n in MetaNames && !WritesSlot(ls, n) ==> r.value.slots[n] == Zero(SlotType(n)))
      && (r.Ok? ==> forall k: nat :: LastSlotWriter(ls, k, n) ==> r.value.slots[n] == Seen(ls[k]))
  {
    var sp := StructValue(Boxed(v)).value;
    var ls := Leaves(sp.0, sp.1);
    var e := EmptyRecord();
    EncodeIsFold(sp.0, sp.1, e);
    FoldAccepts(ls, e);
    if Encode(v).Ok? {
      FoldSlotsTyped(ls, e);
      FoldBinNames(ls, e, n);
      forall k: nat | LastBinWriter(ls, k, n) ensures Encode(v).value.bins[n] == BinValue(ls[k]) {
        FoldBinLast(ls, e, n, k);
      }
      if n in MetaNames && !WritesSlot(ls, n) {
        FoldSlotKept(ls, e, n);
      }
      forall k: nat | LastSlotWriter(ls, k, n) ensures Encode(v).value.slots[n] == Seen(ls[k]) {
        FoldSlotLast(ls, e, n, k);
      }
    }
  }
}
