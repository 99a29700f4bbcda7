/** The metadata fields of the form: assigning a value, clearing every value,
    the completeness count behind the submission gate, and the metadata payload
    sent with each uploaded file. */
module Fields {
  import opened Types

  /** `fields.map(...)` in setFieldValue: the value of every field whose
      internal name equals `internalName` becomes `value`; nothing else changes. */
  function AssignValue(fields: seq<Field>, internalName: string, value: Value): (r: seq<Field>)
    ensures |r| == |fields|
    ensures forall i :: 0 <= i < |fields| ==>
      && r[i].internalName == fields[i].internalName
      && r[i].sortOrder == fields[i].sortOrder
      && r[i].value == (if fields[i].internalName == internalName then value else fields[i].value)
  {
    if fields == [] then []
    else
      var head := if fields[0].internalName == internalName then fields[0].(value := value) else fields[0];
      [head] + AssignValue(fields[1..], internalName, value)
  }

  /** `fields.map(...)` in clearForm: every value becomes `null`; names,
      sort order and the order of the list are kept. */
  function ClearValues(fields: seq<Field>): (r: seq<Field>)
    ensures |r| == |fields|
    ensures forall i :: 0 <= i < |fields| ==>
      && r[i].internalName == fields[i].internalName
      && r[i].sortOrder == fields[i].sortOrder
      && r[i].value == Null
  {
    if fields == [] then [] else [fields[0].(value := Null)] + ClearValues(fields[1..])
  }

  lemma {:induction false} ClearValuesIdempotent(fields: seq<Field>)
    ensures ClearValues(ClearValues(fields)) == ClearValues(fields)
  {
    var once := ClearValues(fields);
    var twice := ClearValues(once);
    forall i | 0 <= i < |fields|
      ensures twice[i] == once[i]
    {
    }
  }

  /** `fields.filter(fld => !!fld.Value).length`: how many fields hold a
      truthy value. It equals the number of fields exactly when every field
      is filled. */
  function CountFilled(fields: seq<Field>): (n: nat)
    ensures n <= |fields|
    ensures n == |fields| <==> forall i :: 0 <= i < |fields| ==> Truthy(fields[i].value)
  {
    if fields == [] then 0
    else (if Truthy(fields[0].value) then 1 else 0) + CountFilled(fields[1..])
  }

  /** The `update` dictionary built in uploadDocuments, read left to right:
      each field's internal name is set to its value in turn. */
  function Payload(fields: seq<Field>): map<string, Value>
    decreases |fields|
  {
    if fields == [] then map[]
    else
      var last := fields[|fields| - 1];
      Payload(fields[..|fields| - 1])[last.internalName := last.value]
  }

  /** The payload has a key for exactly the internal names of the fields. */
  lemma {:induction false} PayloadKeys(fields: seq<Field>)
    ensures forall k :: k in Payload(fields) <==> exists i :: 0 <= i < |fields| && fields[i].internalName == k
    decreases |fields|
  {
    if fields != [] {
      var n := |fields| - 1;
      var init := fields[..n];
      PayloadKeys(init);
      forall k
        ensures k in Payload(fields) <==> exists i :: 0 <= i < |fields| && fields[i].internalName == k
      {
        if k in Payload(init) {
          var i :| 0 <= i < n && init[i].internalName == k;
          assert fields[i].internalName == k;
        }
        if k !in Payload(init) && k != fields[n].internalName {
          forall i | 0 <= i < |fields|
            ensures fields[i].internalName != k
          {
            if i < n {
              assert init[i] == fields[i];
            }
          }
        }
      }
    }
  }

  /** Each key of the payload carries the value of the LAST field with that
      internal name: a later field overwrites an earlier one. */
  lemma {:induction false} PayloadLastWins(fields: seq<Field>, i: nat)
    requires i < |fields|
    requires forall j :: i < j < |fields| ==> fields[j].internalName != fields[i].internalName
    ensures fields[i].internalName in Payload(fields)
    ensures Payload(fields)[fields[i].internalName] == fields[i].value
    decreases |fields|
  {
    var n := |fields| - 1;
    if i < n {
      var init := fields[..n];
      assert init[i] == fields[i];
      forall j | i < j < |init|
        ensures init[j].internalName != init[i].internalName
      {
        assert init[j] == fields[j];
      }
      PayloadLastWins(init, i);
    }
  }

  /** The `fields.forEach` loop that fills the `update` dictionary. */
  method BuildPayload(fields: seq<Field>) returns (update: map<string, Value>)
    ensures update == Payload(fields)
    ensures forall k :: k in update <==> exists i :: 0 <= i < |fields| && fields[i].internalName == k
  {
    update := map[];
    var i := 0;
    while i < |fields|
      invariant 0 <= i <= |fields|
      invariant update == Payload(fields[..i])
    {
      assert fields[..i + 1][..i] == fields[..i];
      update := update[fields[i].internalName := fields[i].value];
      i := i + 1;
    }
    assert fields[..i] == fields;
    PayloadKeys(fields);
  }
}
