/** What copying a struct does, stated field by field: which target each
    source field goes to, when the copy fails and with what, and what each
    target field ends up holding. */
module Copying {
  import opened Wrappers
  import opened Values
  import opened Errors
  import opened Tags
  import opened Reflect

  /** The target field source field `sf` is copied into, if any: the
      exported field of `t` its copy name names. */
  function CopyTarget(sf: Field, t: Type): (r: Option<nat>)
    ensures r.Some? ==> r.value < |TargetFields(t)| && IsExported(TargetFields(t)[r.value].name)
    ensures r.Some? ==> CopyName(sf).Ok? && TargetFields(t)[r.value].name == CopyName(sf).value
    ensures r.Some? ==> forall j :: 0 <= j < r.value ==> TargetFields(t)[j].name != CopyName(sf).value
    ensures r.None? ==>
      || CopyName(sf).Err?
      || forall j :: 0 <= j < |TargetFields(t)| && TargetFields(t)[j].name == CopyName(sf).value ==>
           !IsExported(TargetFields(t)[j].name)
  {
    match CopyName(sf)
    case Err(_) => None
    case Ok(name) =>
      match FieldIndex(TargetFields(t), name)
      case None => None
      case Some(j) => if IsExported(TargetFields(t)[j].name) then Some(j) else None
  }

  /** Source field `sf` holding `sv` can be copied into `t`: its tag is
      valid, and when it has a target the source field is exported and its
      value converts to the target's type. */
  predicate Copyable(sf: Field, sv: Value, t: Type, parseTime: TimeParser) {
    && CopyName(sf).Ok?
    && (CopyTarget(sf, t).Some? ==>
          IsExported(sf.name) && Convert(sv, TargetFields(t)[CopyTarget(sf, t).value].ty, parseTime).Ok?)
  }

  /** Why a source field cannot be copied: its tag, reading a non-exported
      field, or the conversion, named after the copy name. */
  function CopyError(sf: Field, sv: Value, t: Type, parseTime: TimeParser): Error
    requires !Copyable(sf, sv, t, parseTime)
  {
    if CopyName(sf).Err? then CopyName(sf).error
    else if !IsExported(sf.name) then Panic("reading a non-exported field")
    else FieldConversion(CopyName(sf).value, Convert(sv, TargetFields(t)[CopyTarget(sf, t).value].ty, parseTime).error)
  }

  /** The target of each source field. */
  function CopyTargets(sfs: seq<Field>, t: Type): (ts: seq<Option<nat>>)
    ensures |ts| == |sfs| && forall k :: 0 <= k < |sfs| ==> ts[k] == CopyTarget(sfs[k], t)
  {
    seq(|sfs|, k requires 0 <= k < |sfs| => CopyTarget(sfs[k], t))
  }

  /** The last of the positions `i..` of `ts` holding target `j`. */
  function LastCopier(ts: seq<Option<nat>>, i: nat, j: nat): (r: Option<nat>)
    requires i <= |ts|
    ensures r.Some? ==> i <= r.value < |ts| && ts[r.value] == Some(j)
    ensures r.Some? ==> forall m :: r.value < m < |ts| ==> ts[m] != Some(j)
    ensures r.None? ==> forall m :: i <= m < |ts| ==> ts[m] != Some(j)
    decreases |ts| - i
  {
    if i == |ts| then None
    else
      match LastCopier(ts, i + 1, j)
      case Some(k) => Some(k)
      case None => if ts[i] == Some(j) then Some(i) else None
  }

  /** What one step of the copy does. */
  lemma CopyFieldSpec(sf: Field, sv: Value, t: Type, acc: seq<Value>, parseTime: TimeParser)
    requires t.TStruct? || t.TKey?
    requires |acc| == |TargetFields(t)|
    ensures var r := CopyField(sf, sv, t, acc, parseTime);
      && (r.Ok? <==> Copyable(sf, sv, t, parseTime))
      && (r.Err? ==> r.error == CopyError(sf, sv, t, parseTime))
      && (r.Ok? && CopyTarget(sf, t).None? ==> r.value == acc)
      && (r.Ok? && CopyTarget(sf, t).Some? ==>
            var j := CopyTarget(sf, t).value;
            && r.value == acc[j := r.value[j]]
            && Convert(sv, TargetFields(t)[j].ty, parseTime) == Ok(r.value[j]))
  {
    var r := CopyField(sf, sv, t, acc, parseTime);
    var tfs := TargetFields(t);
    match CopyName(sf)
    case Err(e) =>
      assert r == Err(e);
    case Ok(name) =>
      match FieldIndex(tfs, name)
      case None =>
        assert CopyTarget(sf, t).None? && r == Ok(acc);
      case Some(j) =>
        if !IsExported(tfs[j].name) {
          assert CopyTarget(sf, t).None? && r == Ok(acc);
        } else {
          assert CopyTarget(sf, t) == Some(j);
          var c := Convert(sv, tfs[j].ty, parseTime);
          if !IsExported(sf.name) {
            assert r == Err(Panic("reading a non-exported field"));
          } else if c.Err? {
            assert r == Err(FieldConversion(name, c.error));
          } else {
            assert r == Ok(acc[j := c.value]);
          }
        }
  }

  /** The arguments the copy loop takes over fields `i..`. */
  predicate LoopArgs(sfs: seq<Field>, t: Type, i: nat, acc: seq<Value>) {
    (t.TStruct? || t.TKey?) && i <= |sfs| && |acc| == |TargetFields(t)|
  }

  /** Copying field `i`, whose target `ts` gives, turns `acc` into `step`:
      the field's target receives its converted value, and the rest stay. */
  predicate StepStores(ts: seq<Option<nat>>, svals: seq<Value>, t: Type, i: nat, acc: seq<Value>, step: seq<Value>,
                       parseTime: TimeParser)
    requires i < |ts|
  {
    && |step| == |acc| == |TargetFields(t)|
    && (ts[i].None? ==> step == acc)
    && (ts[i].Some? ==>
      && ts[i].value < |acc| && step == acc[ts[i].value := step[ts[i].value]]
      && Convert(At(svals, i), TargetFields(t)[ts[i].value].ty, parseTime) == Ok(step[ts[i].value]))
  }

  /** The copy loop from field `i` is field `i`'s copy followed by the loop
      from the next field. */
  lemma CopyFieldsUnroll(sfs: seq<Field>, svals: seq<Value>, t: Type, i: nat, acc: seq<Value>, parseTime: TimeParser)
    returns (step: Result<seq<Value>, Error>)
    requires LoopArgs(sfs, t, i, acc) && i < |sfs|
    ensures step.Ok? <==> Copyable(sfs[i], At(svals, i), t, parseTime)
    ensures step.Err? ==>
      CopyFields(sfs, svals, t, i, acc, parseTime) == Err(CopyError(sfs[i], At(svals, i), t, parseTime))
    ensures step.Ok? ==>
      && LoopArgs(sfs, t, i + 1, step.value)
      && CopyFields(sfs, svals, t, i, acc, parseTime) == CopyFields(sfs, svals, t, i + 1, step.value, parseTime)
      && StepStores(CopyTargets(sfs, t), svals, t, i, acc, step.value, parseTime)
  {
    step := CopyField(sfs[i], At(svals, i), t, acc, parseTime);
    CopyFieldSpec(sfs[i], At(svals, i), t, acc, parseTime);
    assert CopyTargets(sfs, t)[i] == CopyTarget(sfs[i], t);
  }

  /** Source fields `i..k` can all be copied. */
  predicate CopyableBetween(sfs: seq<Field>, svals: seq<Value>, t: Type, i: nat, k: nat, parseTime: TimeParser) {
    forall m {:trigger Copyable(sfs[m], At(svals, m), t, parseTime)} ::
      i <= m < k && m < |sfs| ==> Copyable(sfs[m], At(svals, m), t, parseTime)
  }

  /** The first of the positions `i..n` where `ok` does not hold. */
  function FirstFalse(ok: nat -> bool, i: nat, n: nat): (r: Option<nat>)
    ensures r.Some? ==> i <= r.value < n && !ok(r.value)
    decreases n - i
  {
    if i >= n then None
    else if !ok(i) then Some(i)
    else FirstFalse(ok, i + 1, n)
  }

  /** `ok` holds at every position before the first where it does not. */
  lemma {:induction false} FirstFalseIsFirst(ok: nat -> bool, i: nat, m: nat, n: nat)
    requires i <= m < n
    requires var r := FirstFalse(ok, i, n); r.None? || m < r.value
    ensures ok(m)
    decreases m - i
  {
    if i < m && ok(i) {
      FirstFalseIsFirst(ok, i + 1, m, n);
    }
  }

  /** Whether the source field at each position can be copied. */
  function CopyableAt(sfs: seq<Field>, svals: seq<Value>, t: Type, parseTime: TimeParser): nat -> bool {
    (m: nat) => m < |sfs| && Copyable(sfs[m], At(svals, m), t, parseTime)
  }

  /** The first of the source fields `i..` that cannot be copied. */
  function FirstUncopyable(sfs: seq<Field>, svals: seq<Value>, t: Type, i: nat, parseTime: TimeParser)
    : (r: Option<nat>)
    ensures r.Some? ==> i <= r.value < |sfs| && !Copyable(sfs[r.value], At(svals, r.value), t, parseTime)
  {
    FirstFalse(CopyableAt(sfs, svals, t, parseTime), i, |sfs|)
  }

  /** The copy loop over source fields `i..` succeeds exactly when each of
      them can be copied, and otherwise reports the first that cannot. */
  lemma {:induction false} CopyFieldsFailsAt(sfs: seq<Field>, svals: seq<Value>, t: Type, i: nat, acc: seq<Value>,
                                             parseTime: TimeParser)
    requires LoopArgs(sfs, t, i, acc)
    ensures var r := CopyFields(sfs, svals, t, i, acc, parseTime); var k := FirstUncopyable(sfs, svals, t, i, parseTime);
      && (r.Ok? <==> k.None?)
      && (r.Err? ==> k.Some? && r.error == CopyError(sfs[k.value], At(svals, k.value), t, parseTime))
    decreases |sfs| - i
  {
    if i < |sfs| {
      var step := CopyFieldsUnroll(sfs, svals, t, i, acc, parseTime);
      if step.Ok? {
        CopyFieldsFailsAt(sfs, svals, t, i + 1, step.value, parseTime);
        assert FirstUncopyable(sfs, svals, t, i, parseTime) == FirstUncopyable(sfs, svals, t, i + 1, parseTime);
      } else {
        assert FirstUncopyable(sfs, svals, t, i, parseTime) == Some(i);
      }
    }
  }

  /** Every target field of `out` holds the conversion of the last source
      field from `i` on copied into it, or its value in `acc` when there is
      none; `ts` gives the source fields' targets. */
  predicate HoldsCopies(ts: seq<Option<nat>>, svals: seq<Value>, t: Type, i: nat, acc: seq<Value>, out: seq<Value>,
                        parseTime: TimeParser)
    requires i <= |ts|
  {
    && |out| == |acc| == |TargetFields(t)|
    && forall j :: 0 <= j < |acc| ==>
      var lc := LastCopier(ts, i, j);
      && (lc.None? ==> out[j] == acc[j])
      && (lc.Some? ==> Convert(At(svals, lc.value), TargetFields(t)[j].ty, parseTime) == Ok(out[j]))
  }

  /** Copying field `i` into `acc` gives `step`, from which the fields
      after `i` give `out`: then the fields from `i` on give `out` from
      `acc`. */
  lemma HoldsCopiesStep(ts: seq<Option<nat>>, svals: seq<Value>, t: Type, i: nat, acc: seq<Value>,
                        step: seq<Value>, out: seq<Value>, parseTime: TimeParser)
    requires i < |ts| && |acc| == |TargetFields(t)|
    requires StepStores(ts, svals, t, i, acc, step, parseTime)
    requires HoldsCopies(ts, svals, t, i + 1, step, out, parseTime)
    ensures HoldsCopies(ts, svals, t, i, acc, out, parseTime)
  {
    forall j | 0 <= j < |acc|
      ensures var lc := LastCopier(ts, i, j);
        && (lc.None? ==> out[j] == acc[j])
        && (lc.Some? ==> Convert(At(svals, lc.value), TargetFields(t)[j].ty, parseTime) == Ok(out[j]))
    {
      if LastCopier(ts, i + 1, j).None? && ts[i] != Some(j) {
        assert step[j] == acc[j];
      }
    }
  }

  /** On success the copy loop over source fields `i..` leaves in every
      target field the conversion of the last of them copied into it, or
      the value it had when there is none. */
  lemma {:induction false} CopyFieldsValues(sfs: seq<Field>, svals: seq<Value>, t: Type, i: nat, acc: seq<Value>,
                                            parseTime: TimeParser)
    requires LoopArgs(sfs, t, i, acc)
    ensures var r := CopyFields(sfs, svals, t, i, acc, parseTime);
      r.Ok? ==> HoldsCopies(CopyTargets(sfs, t), svals, t, i, acc, r.value, parseTime)
    decreases |sfs| - i
  {
    if i < |sfs| {
      var step := CopyFieldsUnroll(sfs, svals, t, i, acc, parseTime);
      if step.Ok? {
        CopyFieldsValues(sfs, svals, t, i + 1, step.value, parseTime);
        var r := CopyFields(sfs, svals, t, i + 1, step.value, parseTime);
        if r.Ok? {
          HoldsCopiesStep(CopyTargets(sfs, t), svals, t, i, acc, step.value, r.value, parseTime);
        }
      }
    }
  }

  /** Copying a struct into a struct type succeeds exactly when every
      source field can be copied, and reports the first that cannot; the
      copy holds in each field the conversion of the last source field
      copied into it, and the zero value where none is. Copying into the
      key yields the zero key. */
  lemma CopyStructSpec(s: Value, t: Type, parseTime: TimeParser)
    requires IsStructKind(s) && (t.TStruct? || t.TKey?)
    ensures var r := CopyStruct(s, t, parseTime);
      r.Ok? <==> CopyableBetween(FieldsOf(s), ValsOf(s), t, 0, |FieldsOf(s)|, parseTime)
    ensures var r := CopyStruct(s, t, parseTime); var k := FirstUncopyable(FieldsOf(s), ValsOf(s), t, 0, parseTime);
      r.Err? ==> k.Some? && r.error == CopyError(FieldsOf(s)[k.value], At(ValsOf(s), k.value), t, parseTime)
    ensures var r := CopyStruct(s, t, parseTime);
      r.Ok? && t.TKey? ==> r.value == Zero(TKey)
    ensures var r := CopyStruct(s, t, parseTime);
      r.Ok? && t.TStruct? ==>
        && r.value == VStruct(t.name, t.fields, r.value.vals) && |r.value.vals| == |t.fields|
        && forall j :: 0 <= j < |t.fields| ==>
          var lc := LastCopier(CopyTargets(FieldsOf(s), t), 0, j);
          && (lc.None? ==> r.value.vals[j] == Zero(t.fields[j].ty))
          && (lc.Some? ==> Convert(At(ValsOf(s), lc.value), t.fields[j].ty, parseTime) == Ok(r.value.vals[j]))
  {
    var init := if t.TStruct? then Zero(t).vals else [];
    assert LoopArgs(FieldsOf(s), t, 0, init);
    CopyFieldsFailsAt(FieldsOf(s), ValsOf(s), t, 0, init, parseTime);
    var k := FirstUncopyable(FieldsOf(s), ValsOf(s), t, 0, parseTime);
    forall m | 0 <= m < |FieldsOf(s)| && (k.None? || m < k.value)
      ensures Copyable(FieldsOf(s)[m], At(ValsOf(s), m), t, parseTime)
    {
      FirstFalseIsFirst(CopyableAt(FieldsOf(s), ValsOf(s), t, parseTime), 0, m, |FieldsOf(s)|);
    }
    CopyFieldsValues(FieldsOf(s), ValsOf(s), t, 0, init, parseTime);
  }
}
