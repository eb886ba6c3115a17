/** The walk every pass of the codec makes over a struct: fields in
    declaration order, each seen with one pointer dereferenced; a field whose
    value is then of struct kind is walked in turn, every other field (a
    leaf) is handed to the pass. The encoder reads the leaves; the three
    decoding passes replace them. */
module Traverse {
  import opened Wrappers
  import opened Values
  import opened Errors
  import opened Reflect

  /** A field handed to a pass: its declaration, its own value (before any
      dereference; absent when the struct has no value for it) and the place
      of that value. */
  datatype Leaf = Leaf(field: Field, raw: Value, place: Place)

  /** What a pass sees of a leaf: the value with one pointer dereferenced. */
  function Seen(l: Leaf): Value {
    Deref(l.raw)
  }

  /** The place of what a pass sees. */
  function SeenPlace(l: Leaf): Place {
    if l.raw.VPtr? then ElemPlace(l.place) else l.place
  }

  /** What a pass sees of a leaf can be assigned: it is a value (not the
      nothing a nil pointer leads to) at an assignable place. */
  predicate SeenSettable(l: Leaf) {
    Seen(l) != VInvalid && CanSet(SeenPlace(l))
  }

  /** Field `i` of `s` as a leaf; what a pass sees of it is what
      `FieldValueDeref` yields. */
  function LeafAt(s: Value, p: Place, i: nat): (l: Leaf)
    requires i < |FieldsOf(s)|
    ensures l.field == FieldsOf(s)[i]
    ensures (Seen(l), SeenPlace(l)) == FieldValueDeref(s, p, i)
  {
    Leaf(FieldsOf(s)[i], At(ValsOf(s), i), FieldPlace(p, FieldsOf(s)[i]))
  }

  /** Every leaf under struct `s` at place `p`, in visiting order. */
  function Leaves(s: Value, p: Place): seq<Leaf>
    decreases s, 1
  {
    LeavesFrom(s, p, 0)
  }

  /** The leaves under fields `i..` of `s`. */
  function LeavesFrom(s: Value, p: Place, i: nat): seq<Leaf>
    decreases s, 0, |FieldsOf(s)| - i
  {
    if i >= |FieldsOf(s)| then []
    else
      var l := LeafAt(s, p, i);
      assert i < |s.vals| ==> l.raw == s.vals[i];
      (if IsStructKind(Seen(l)) then Leaves(Seen(l), SeenPlace(l)) else [l])
        + LeavesFrom(s, p, i + 1)
  }

  /** The leaves a field stands for: those of the struct it holds, or the
      field itself. */
  function LeavesOf(l: Leaf): seq<Leaf> {
    if IsStructKind(Seen(l)) then Leaves(Seen(l), SeenPlace(l)) else [l]
  }

  // ---------------------------------------------------------------------------
  // Replacing leaves

  /** A decoding pass on one leaf: the new value of the field itself (not
      dereferenced), or a failure. */
  type Action = Leaf -> Result<Value, Error>

  /** The new value of a field whose dereferenced value became `nv`: a
      pointer keeps pointing, now at `nv`. */
  function Reattach(raw: Value, nv: Value): Value {
    if raw.VPtr? then VPtr(raw.elemTy, nv) else nv
  }

  /** `vals` with position `i` replaced, when there is one. */
  function Store(vals: seq<Value>, i: nat, v: Value): seq<Value> {
    if i < |vals| then vals[i := v] else vals
  }

  /** A struct-kind value with new field values; the key and time values
      have no fields to replace. */
  function Rebuild(s: Value, vals: seq<Value>): Value {
    if s.VStruct? then VStruct(s.name, s.fields, vals) else s
  }

  /** Walks struct `s` at place `p`, replacing every leaf by what `act`
      makes of it; the first failure stops the walk. */
  function Walk(s: Value, p: Place, act: Action): Result<Value, Error>
    decreases s, 1
  {
    var vals :- WalkFrom(s, p, act, 0, ValsOf(s));
    Ok(Rebuild(s, vals))
  }

  /** The walk over fields `i..` of `s`, `acc` holding the field values so
      far. */
  function WalkFrom(s: Value, p: Place, act: Action, i: nat, acc: seq<Value>)
    : Result<seq<Value>, Error>
    decreases s, 0, |FieldsOf(s)| - i
  {
    if i >= |FieldsOf(s)| then Ok(acc)
    else
      var l := LeafAt(s, p, i);
      assert i < |s.vals| ==> l.raw == s.vals[i];
      var nv :- (if IsStructKind(Seen(l)) then
                   (var w :- Walk(Seen(l), SeenPlace(l), act); Ok(Reattach(l.raw, w)))
                 else act(l));
      WalkFrom(s, p, act, i + 1, Store(acc, i, nv))
  }

  /** The new value of one field: a field holding a struct is walked, any
      other is handed to the pass. */
  function Visit(l: Leaf, act: Action): Result<Value, Error> {
    if IsStructKind(Seen(l)) then
      var w :- Walk(Seen(l), SeenPlace(l), act);
      Ok(Reattach(l.raw, w))
    else act(l)
  }

  // ---------------------------------------------------------------------------
  // Properties of the walk

  predicate AllAccepted(ls: seq<Leaf>, act: Action) {
    forall k :: 0 <= k < |ls| ==> act(ls[k]).Ok?
  }

  /** `e` is the failure of the first leaf `act` rejects. */
  predicate FirstFailure(ls: seq<Leaf>, act: Action, e: Error) {
    exists k :: 0 <= k < |ls| && act(ls[k]) == Err(e) && AllAccepted(ls[..k], act)
  }

  lemma AcceptedAppend(a: seq<Leaf>, b: seq<Leaf>, act: Action)
    ensures AllAccepted(a + b, act) <==> AllAccepted(a, act) && AllAccepted(b, act)
  {
    if AllAccepted(a, act) && AllAccepted(b, act) {
      forall k | 0 <= k < |a + b| ensures act((a + b)[k]).Ok? {
        if k >= |a| { assert (a + b)[k] == b[k - |a|]; }
      }
    }
    if AllAccepted(a + b, act) {
      forall k | 0 <= k < |a| ensures act(a[k]).Ok? {
        assert (a + b)[k] == a[k];
      }
      forall k | 0 <= k < |b| ensures act(b[k]).Ok? {
        assert (a + b)[k + |a|] == b[k];
      }
    }
  }

  lemma FailureAppend(a: seq<Leaf>, b: seq<Leaf>, act: Action, e: Error)
    requires FirstFailure(a, act, e) || (AllAccepted(a, act) && FirstFailure(b, act, e))
    ensures FirstFailure(a + b, act, e)
  {
    if FirstFailure(a, act, e) {
      var k :| 0 <= k < |a| && act(a[k]) == Err(e) && AllAccepted(a[..k], act);
      assert (a + b)[k] == a[k];
      assert (a + b)[..k] == a[..k];
    } else {
      var k :| 0 <= k < |b| && act(b[k]) == Err(e) && AllAccepted(b[..k], act);
      assert (a + b)[|a| + k] == b[k];
      assert (a + b)[..|a| + k] == a + b[..k];
      AcceptedAppend(a, b[..k], act);
    }
  }

  /** The walk succeeds exactly when the pass accepts every leaf, and
      otherwise fails as the pass does on the first leaf it rejects. */
  lemma {:induction false} WalkAccepts(s: Value, p: Place, act: Action)
    ensures var r := Walk(s, p, act);
      && (r.Ok? <==> AllAccepted(Leaves(s, p), act))
      && (r.Err? ==> FirstFailure(Leaves(s, p), act, r.error))
    decreases s, 1
  {
    WalkFromAccepts(s, p, act, 0, ValsOf(s));
  }

  lemma {:induction false} WalkFromAccepts(s: Value, p: Place, act: Action, i: nat, acc: seq<Value>)
    ensures var r := WalkFrom(s, p, act, i, acc);
      && (r.Ok? <==> AllAccepted(LeavesFrom(s, p, i), act))
      && (r.Err? ==> FirstFailure(LeavesFrom(s, p, i), act, r.error))
    decreases s, 0, |FieldsOf(s)| - i
  {
    if i < |FieldsOf(s)| {
      var l := LeafAt(s, p, i);
      assert i < |s.vals| ==> l.raw == s.vals[i];
      var head := LeavesOf(l);
      var tail := LeavesFrom(s, p, i + 1);
      assert LeavesFrom(s, p, i) == head + tail;
      AcceptedAppend(head, tail, act);
      var nv := Visit(l, act);
      assert WalkFrom(s, p, act, i, acc) == (if nv.Err? then Err(nv.error)
        else WalkFrom(s, p, act, i + 1, Store(acc, i, nv.value)));
      if IsStructKind(Seen(l)) {
        VisitAccepts(l, act);
      } else {
        FieldLeafAccepts(l, act);
      }
      if nv.Err? {
        FailureAppend(head, tail, act, nv.error);
      } else {
        WalkFromAccepts(s, p, act, i + 1, Store(acc, i, nv.value));
        var r := WalkFrom(s, p, act, i + 1, Store(acc, i, nv.value));
        if r.Err? {
          FailureAppend(head, tail, act, r.error);
        }
      }
    }
  }

  lemma FieldLeafAccepts(l: Leaf, act: Action)
    requires !IsStructKind(Seen(l))
    ensures var r := Visit(l, act);
      && (r.Ok? <==> AllAccepted(LeavesOf(l), act))
      && (r.Err? ==> FirstFailure(LeavesOf(l), act, r.error))
  {
    var ls := LeavesOf(l);
    assert ls == [l] && ls[0] == l;
    assert AllAccepted(ls, act) <==> act(l).Ok?;
    assert AllAccepted(ls[..0], act);
  }

  lemma {:induction false} VisitAccepts(l: Leaf, act: Action)
    requires IsStructKind(Seen(l))
    ensures var r := Visit(l, act);
      && (r.Ok? <==> AllAccepted(LeavesOf(l), act))
      && (r.Err? ==> FirstFailure(LeavesOf(l), act, r.error))
    decreases Seen(l), 2
  {
    WalkAccepts(Seen(l), SeenPlace(l), act);
  }

  /** Nothing else changes: when the pass gives every leaf back its own
      value, the walk gives back the struct unchanged. */
  lemma {:induction false} WalkUnchanged(s: Value, p: Place, act: Action)
    requires forall k :: 0 <= k < |Leaves(s, p)| ==> act(Leaves(s, p)[k]) == Ok(Leaves(s, p)[k].raw)
    ensures Walk(s, p, act) == Ok(s)
    decreases s, 1
  {
    assert Leaves(s, p) == LeavesFrom(s, p, 0);
    WalkFromUnchanged(s, p, act, 0);
  }

  lemma {:induction false} WalkFromUnchanged(s: Value, p: Place, act: Action, i: nat)
    requires var ls := LeavesFrom(s, p, i);
      forall k :: 0 <= k < |ls| ==> act(ls[k]) == Ok(ls[k].raw)
    ensures WalkFrom(s, p, act, i, ValsOf(s)) == Ok(ValsOf(s))
    decreases s, 0, |FieldsOf(s)| - i
  {
    if i < |FieldsOf(s)| {
      var l := LeafAt(s, p, i);
      assert i < |s.vals| ==> l.raw == s.vals[i];
      var head := LeavesOf(l);
      var tail := LeavesFrom(s, p, i + 1);
      assert LeavesFrom(s, p, i) == head + tail;
      forall k | 0 <= k < |tail| ensures act(tail[k]) == Ok(tail[k].raw) {
        assert (head + tail)[|head| + k] == tail[k];
      }
      forall k | 0 <= k < |head| ensures act(head[k]) == Ok(head[k].raw) {
        assert (head + tail)[k] == head[k];
      }
      if IsStructKind(Seen(l)) {
        VisitUnchanged(l, act);
      } else {
        assert head[0] == l;
      }
      assert Store(ValsOf(s), i, l.raw) == ValsOf(s);
      WalkFromUnchanged(s, p, act, i + 1);
    }
  }

  lemma {:induction false} VisitUnchanged(l: Leaf, act: Action)
    requires IsStructKind(Seen(l))
    requires forall k :: 0 <= k < |LeavesOf(l)| ==> act(LeavesOf(l)[k]) == Ok(LeavesOf(l)[k].raw)
    ensures Visit(l, act) == Ok(l.raw)
    decreases Seen(l), 2
  {
    assert LeavesOf(l) == Leaves(Seen(l), SeenPlace(l));
    WalkUnchanged(Seen(l), SeenPlace(l), act);
    assert Reattach(l.raw, Seen(l)) == l.raw;
  }

  // ---------------------------------------------------------------------------
  // Types are kept

  /** A pass keeps every field at its declared type: whatever it makes of a
      leaf whose own value has the field's type has that type too. */
  ghost predicate KeepsTypes(act: Action) {
    forall l: Leaf :: HasType(l.raw, l.field.ty) && act(l).Ok? ==> HasType(act(l).value, l.field.ty)
  }

  /** A walk with a type-keeping pass yields a value of the struct's own
      type. */
  lemma {:induction false} WalkHasType(s: Value, p: Place, act: Action)
    requires KeepsTypes(act) && WellFormed(s) && IsStructKind(s)
    ensures var r := Walk(s, p, act); r.Ok? ==> WellFormed(r.value) && TypeOf(r.value) == TypeOf(s)
    decreases s, 1
  {
    if s.VStruct? {
      WalkFromHasType(s, p, act, 0, s.vals);
    }
  }

  lemma {:induction false} WalkFromHasType(s: Value, p: Place, act: Action, i: nat, acc: seq<Value>)
    requires KeepsTypes(act) && WellFormed(s) && s.VStruct?
    requires |acc| == |s.fields| && forall j :: 0 <= j < |acc| ==> HasType(acc[j], s.fields[j].ty)
    ensures var r := WalkFrom(s, p, act, i, acc);
      r.Ok? ==> |r.value| == |s.fields| && forall j :: 0 <= j < |r.value| ==> HasType(r.value[j], s.fields[j].ty)
    decreases s, 0, |FieldsOf(s)| - i
  {
    if i < |s.fields| {
      var l := LeafAt(s, p, i);
      assert l.raw == s.vals[i];
      assert HasType(l.raw, l.field.ty);
      var nv := Visit(l, act);
      assert WalkFrom(s, p, act, i, acc) == (if nv.Err? then Err(nv.error)
        else WalkFrom(s, p, act, i + 1, Store(acc, i, nv.value)));
      if nv.Ok? {
        VisitLeafHasType(l, act);
        StoreHasType(acc, s.fields, i, nv.value);
        WalkFromHasType(s, p, act, i + 1, Store(acc, i, nv.value));
      }
    }
  }

  lemma StoreHasType(acc: seq<Value>, fs: seq<Field>, i: nat, v: Value)
    requires |acc| == |fs| && i < |fs| && HasType(v, fs[i].ty)
    requires forall j :: 0 <= j < |acc| ==> HasType(acc[j], fs[j].ty)
    ensures var r := Store(acc, i, v); |r| == |fs| && forall j :: 0 <= j < |r| ==> HasType(r[j], fs[j].ty)
  {
  }

  lemma {:induction false} VisitLeafHasType(l: Leaf, act: Action)
    requires KeepsTypes(act) && HasType(l.raw, l.field.ty)
    ensures var r := Visit(l, act); r.Ok? ==> HasType(r.value, l.field.ty)
    decreases Seen(l), 3
  {
    if IsStructKind(Seen(l)) {
      VisitHasType(l, act);
    }
  }

  lemma {:induction false} VisitHasType(l: Leaf, act: Action)
    requires KeepsTypes(act) && IsStructKind(Seen(l)) && HasType(l.raw, l.field.ty)
    ensures var r := Visit(l, act); r.Ok? ==> HasType(r.value, l.field.ty)
    decreases Seen(l), 2
  {
    HasTypeIsTypeOf(l.raw, l.field.ty);
    WalkHasType(Seen(l), SeenPlace(l), act);
  }

  // ---------------------------------------------------------------------------
  // Flat structs

  /** No field of `s` holds a struct, directly or through a pointer: the
      leaves are the fields themselves. */
  predicate Flat(s: Value) {
    forall i :: 0 <= i < |ValsOf(s)| ==> !IsStructKind(Deref(ValsOf(s)[i]))
  }

  /** The leaves of a flat struct are its fields, in order. */
  lemma {:induction false} FlatLeaves(s: Value, p: Place)
    requires s.VStruct? && |s.vals| == |s.fields| && Flat(s)
    ensures |Leaves(s, p)| == |s.fields|
    ensures forall i :: 0 <= i < |s.fields| ==> Leaves(s, p)[i] == LeafAt(s, p, i)
  {
    FlatLeavesFrom(s, p, 0);
  }

  lemma {:induction false} FlatLeavesFrom(s: Value, p: Place, i: nat)
    requires s.VStruct? && |s.vals| == |s.fields| && Flat(s) && i <= |s.fields|
    ensures |LeavesFrom(s, p, i)| == |s.fields| - i
    ensures forall j :: i <= j < |s.fields| ==> LeavesFrom(s, p, i)[j - i] == LeafAt(s, p, j)
    decreases |s.fields| - i
  {
    if i < |s.fields| {
      var l := LeafAt(s, p, i);
      assert l.raw == s.vals[i] && !IsStructKind(Seen(l));
      assert LeavesFrom(s, p, i) == [l] + LeavesFrom(s, p, i + 1);
      FlatLeavesFrom(s, p, i + 1);
    }
  }

  /** Walking a flat struct replaces each field by what the pass makes of
      it. */
  lemma {:induction false} WalkFlat(s: Value, p: Place, act: Action, nvs: seq<Value>)
    requires s.VStruct? && |s.vals| == |s.fields| && Flat(s) && |nvs| == |s.fields|
    requires forall i :: 0 <= i < |s.fields| ==> act(LeafAt(s, p, i)) == Ok(nvs[i])
    ensures Walk(s, p, act) == Ok(VStruct(s.name, s.fields, nvs))
  {
    assert nvs[..0] + s.vals[0..] == s.vals;
    WalkFlatFrom(s, p, act, nvs, 0);
  }

  lemma {:induction false} WalkFlatFrom(s: Value, p: Place, act: Action, nvs: seq<Value>, i: nat)
    requires s.VStruct? && |s.vals| == |s.fields| && Flat(s) && |nvs| == |s.fields| && i <= |nvs|
    requires forall j :: 0 <= j < |s.fields| ==> act(LeafAt(s, p, j)) == Ok(nvs[j])
    ensures WalkFrom(s, p, act, i, nvs[..i] + s.vals[i..]) == Ok(nvs)
    decreases |s.fields| - i
  {
    if i < |s.fields| {
      var l := LeafAt(s, p, i);
      assert l.raw == s.vals[i] && !IsStructKind(Seen(l));
      var acc := nvs[..i] + s.vals[i..];
      assert Store(acc, i, nvs[i]) == nvs[..i + 1] + s.vals[i + 1..];
      WalkFlatFrom(s, p, act, nvs, i + 1);
    } else {
      assert nvs[..i] + s.vals[i..] == nvs;
    }
  }
}
