/** The flat JWT claim object and its reserved names (client/src/models/client_claims.rs,
    client/src/models/certificate_claims.rs, client/src/models/claim_policy.rs). Typed claims and an
    `extra` map are written into one JSON object and told apart again by name when it is read. */
module ClientClaims {
  import opened HashMaps
  import opened Wrappers

  datatype Json =
    | Null
    | Bool(b: bool)
    | Num(n: int)
    | Str(s: string)
    | Arr(items: seq<Json>)
    | Obj(fields: map<string, Json>)

  /** A JSON object as written: names may repeat. */
  type Flat = seq<(string, Json)>

  datatype DecodeError = DuplicateField(name: string) | MissingField(name: string) | WrongType(name: string)

  // ---- Flattening, for any list of typed names ----

  /** The typed claims that are set, in the order of their declaration. */
  function Emit(names: seq<string>, values: seq<Option<Json>>): Flat
    requires |names| == |values|
    decreases values
  {
    if names == [] then []
    else (if values[0].Some? then [(names[0], values[0].value)] else []) + Emit(names[1..], values[1..])
  }

  /** The extra claims, in the order the hash map happens to iterate. */
  function EmitExtra(extra: map<string, Json>, order: seq<string>): Flat
    requires forall name <- order :: name in extra
  {
    if order == [] then [] else [(order[0], extra[order[0]])] + EmitExtra(extra, order[1..])
  }

  /** What the object says under a name: nothing, one value, or too much. */
  function Field(flat: Flat, name: string): Result<Option<Json>, DecodeError> {
    if flat == [] then Success(None)
    else
      match Field(flat[1..], name)
      case Failure(e) => Failure(e)
      case Success(found) =>
        if flat[0].0 != name then Success(found)
        else if found.Some? then Failure(DuplicateField(name))
        else Success(Some(flat[0].1))
  }

  function Fields(flat: Flat, names: seq<string>): Result<seq<Option<Json>>, DecodeError> {
    if names == [] then Success([])
    else
      match Field(flat, names[0])
      case Failure(e) => Failure(e)
      case Success(v) =>
        match Fields(flat, names[1..])
        case Failure(e) => Failure(e)
        case Success(vs) => Success([v] + vs)
  }

  /** The claims under any other name; a repeated one is overwritten. */
  function Rest(flat: Flat, names: seq<string>): map<string, Json> {
    if flat == [] then map[]
    else
      var n := |flat| - 1;
      var before := Rest(flat[..n], names);
      if flat[n].0 in names then before else before[flat[n].0 := flat[n].1]
  }

  function NamesOf(flat: Flat): seq<string> {
    seq(|flat|, i requires 0 <= i < |flat| => flat[i].0)
  }

  ghost predicate Distinct(names: seq<string>) {
    forall i, j | 0 <= i < j < |names| :: names[i] != names[j]
  }

  ghost predicate AtMostOnce(flat: Flat, name: string) {
    forall i, j | 0 <= i < j < |flat| :: flat[i].0 != name || flat[j].0 != name
  }

  /** A field is read exactly when its name does not repeat, and then it is what stands there. */
  lemma {:induction false} FieldIsWhatStandsThere(flat: Flat, name: string)
    ensures Field(flat, name).Success? <==> AtMostOnce(flat, name)
    ensures Field(flat, name).Success? ==>
              && (Field(flat, name).value.None? ==> forall e <- flat :: e.0 != name)
              && (Field(flat, name).value.Some? ==>
                    (name, Field(flat, name).value.value) in flat
                    && forall e <- flat | e.0 == name :: e.1 == Field(flat, name).value.value)
  {
    if flat != [] {
      FieldIsWhatStandsThere(flat[1..], name);
      assert flat == [flat[0]] + flat[1..];
      if AtMostOnce(flat[1..], name) {
        assert AtMostOnce(flat, name) <==> flat[0].0 != name || forall e <- flat[1..] :: e.0 != name by {
          assert forall i | 0 < i < |flat| :: flat[i] == flat[1..][i - 1];
          if flat[0].0 == name && AtMostOnce(flat, name) {
            forall e <- flat[1..] ensures e.0 != name {
              var i :| 0 <= i < |flat| - 1 && flat[1..][i] == e;
              assert flat[i + 1] == e;
            }
          }
        }
      } else {
        var i, j :| 0 <= i < j < |flat| - 1 && flat[1..][i].0 == name && flat[1..][j].0 == name;
        assert flat[i + 1].0 == name && flat[j + 1].0 == name;
      }
    }
  }

  lemma {:induction false} FieldConcat(a: Flat, b: Flat, name: string)
    ensures Field(a + b, name)
            == if Field(b, name).Failure? then Field(b, name)
               else if Field(a, name).Failure? then Field(a, name)
               else if Field(b, name).value.None? then Field(a, name)
               else if Field(a, name).value.None? then Field(b, name)
               else Failure(DuplicateField(name))
  {
    if a == [] {
      assert a + b == b;
    } else {
      assert (a + b)[0] == a[0] && (a + b)[1..] == a[1..] + b;
      FieldConcat(a[1..], b, name);
      FieldErrors(a[1..], name);
      FieldErrors(b, name);
    }
  }

  lemma {:induction false} FieldErrors(flat: Flat, name: string)
    ensures Field(flat, name).Failure? ==> Field(flat, name).error == DuplicateField(name)
  {
    if flat != [] {
      FieldErrors(flat[1..], name);
    }
  }

  lemma {:induction false} FieldAbsent(flat: Flat, name: string)
    requires forall e <- flat :: e.0 != name
    ensures Field(flat, name) == Success(None)
  {
    if flat != [] {
      FieldAbsent(flat[1..], name);
    }
  }

  lemma {:induction false} EmittedNames(names: seq<string>, values: seq<Option<Json>>)
    requires |names| == |values|
    ensures forall e <- Emit(names, values) :: e.0 in names
    ensures forall i | 0 <= i < |names| && values[i].Some? :: (names[i], values[i].value) in Emit(names, values)
  {
    if names != [] {
      EmittedNames(names[1..], values[1..]);
    }
  }

  lemma {:induction false} FieldOfEmitted(names: seq<string>, values: seq<Option<Json>>, i: nat)
    requires |names| == |values| && i < |names| && Distinct(names)
    ensures Field(Emit(names, values), names[i]) == Success(values[i])
  {
    var head := if values[0].Some? then [(names[0], values[0].value)] else [];
    var tail := Emit(names[1..], values[1..]);
    FieldConcat(head, tail, names[i]);
    EmittedNames(names[1..], values[1..]);
    if i == 0 {
      assert names[0] !in names[1..];
      FieldAbsent(tail, names[0]);
      assert values[0].Some? ==> head[1..] == [];
    } else {
      FieldOfEmitted(names[1..], values[1..], i - 1);
      FieldAbsent(head, names[i]);
    }
  }

  lemma {:induction false} FieldOfExtra(extra: map<string, Json>, order: seq<string>, name: string)
    requires (forall n <- order :: n in extra) && Distinct(order)
    ensures Field(EmitExtra(extra, order), name) == Success(if name in order then Some(extra[name]) else None)
  {
    if order != [] {
      FieldOfExtra(extra, order[1..], name);
    }
  }

  lemma {:induction false} RestConcat(a: Flat, b: Flat, names: seq<string>)
    ensures Rest(a + b, names) == Rest(a, names) + Rest(b, names)
  {
    if b == [] {
      assert a + b == a;
    } else {
      var n := |b| - 1;
      assert (a + b)[..|a + b| - 1] == a + b[..n];
      RestConcat(a, b[..n], names);
    }
  }

  lemma {:induction false} RestOfEmitted(names: seq<string>, flat: Flat)
    requires forall e <- flat :: e.0 in names
    ensures Rest(flat, names) == map[]
  {
    if flat != [] {
      RestOfEmitted(names, flat[..|flat| - 1]);
    }
  }

  lemma {:induction false} RestOfExtra(extra: map<string, Json>, order: seq<string>, names: seq<string>)
    requires forall n <- order :: n in extra
    ensures Rest(EmitExtra(extra, order), names) == map n | n in order && n !in names :: extra[n]
  {
    if order != [] {
      var head: Flat := [(order[0], extra[order[0]])];
      RestConcat(head, EmitExtra(extra, order[1..]), names);
      RestOfExtra(extra, order[1..], names);
      assert head[..0] == [];
    }
  }

  lemma {:induction false} FieldsAre(flat: Flat, names: seq<string>, values: seq<Option<Json>>)
    requires |names| == |values|
    ensures Fields(flat, names) == Success(values)
            <==> forall i | 0 <= i < |names| :: Field(flat, names[i]) == Success(values[i])
  {
    if names != [] {
      FieldsAre(flat, names[1..], values[1..]);
      assert values == [values[0]] + values[1..];
      if Fields(flat, names) == Success(values) {
        forall i | 0 <= i < |names| ensures Field(flat, names[i]) == Success(values[i]) {
          if i > 0 {
            assert names[i] == names[1..][i - 1] && values[i] == values[1..][i - 1];
          }
        }
      }
    }
  }

  lemma {:induction false} FieldsAreThere(flat: Flat, names: seq<string>)
    ensures Fields(flat, names).Success? <==> forall name <- names :: AtMostOnce(flat, name)
    ensures Fields(flat, names).Success? ==>
              && |Fields(flat, names).value| == |names|
              && forall i | 0 <= i < |names| :: Field(flat, names[i]) == Success(Fields(flat, names).value[i])
  {
    if names != [] {
      FieldIsWhatStandsThere(flat, names[0]);
      FieldsAreThere(flat, names[1..]);
      assert names == [names[0]] + names[1..];
    }
  }

  /** Writing the typed claims and the extra ones into one object and telling them apart again loses
      nothing exactly when no extra claim bears a typed name, whether or not that typed claim is set. */
  lemma FlatteningIsLossless(names: seq<string>, values: seq<Option<Json>>, extra: map<string, Json>,
                             order: seq<string>)
    requires |names| == |values| && Distinct(names) && Enumerates(order, extra.Keys)
    ensures var flat := Emit(names, values) + EmitExtra(extra, order);
            (Fields(flat, names) == Success(values) && Rest(flat, names) == extra)
            <==> forall name <- names :: name !in extra
  {
    var typed, rest := Emit(names, values), EmitExtra(extra, order);
    EmittedNames(names, values);
    RestConcat(typed, rest, names);
    RestOfEmitted(names, typed);
    RestOfExtra(extra, order, names);
    FieldsAre(typed + rest, names, values);
    forall i | 0 <= i < |names|
      ensures Field(typed + rest, names[i]) == Success(values[i]) <==> names[i] !in extra
    {
      FieldOfFlat(names, values, extra, order, i);
    }
    if forall name <- names :: name !in extra {
      assert Rest(typed + rest, names) == extra;
    }
  }

  lemma FieldOfFlat(names: seq<string>, values: seq<Option<Json>>, extra: map<string, Json>, order: seq<string>, i: nat)
    requires |names| == |values| && Distinct(names) && Enumerates(order, extra.Keys) && i < |names|
    ensures Field(Emit(names, values) + EmitExtra(extra, order), names[i]) == Success(values[i]) <==> names[i] !in extra
  {
    FieldConcat(Emit(names, values), EmitExtra(extra, order), names[i]);
    FieldOfEmitted(names, values, i);
    FieldOfExtra(extra, order, names[i]);
  }

  /** Claim names are unique in the object, as section 4 of RFC 7519 demands, exactly when no extra
      claim bears the name of a typed claim that is set. */
  lemma NamesAreUnique(names: seq<string>, values: seq<Option<Json>>, extra: map<string, Json>, order: seq<string>)
    requires |names| == |values| && Distinct(names) && Enumerates(order, extra.Keys)
    ensures Distinct(NamesOf(Emit(names, values) + EmitExtra(extra, order)))
            <==> forall i | 0 <= i < |names| && values[i].Some? :: names[i] !in extra
  {
    var typed, rest := Emit(names, values), EmitExtra(extra, order);
    EmittedDistinct(names, values);
    ExtraNames(extra, order);
    var all := NamesOf(typed + rest);
    assert forall i | 0 <= i < |typed| :: all[i] == NamesOf(typed)[i];
    assert forall i | 0 <= i < |rest| :: all[|typed| + i] == NamesOf(rest)[i] == order[i];
    if i :| 0 <= i < |names| && values[i].Some? && names[i] in extra {
      EmittedAreSet(names, values, names[i]);
      var e :| e in typed && e.0 == names[i];
      var a :| 0 <= a < |typed| && typed[a] == e;
      var b :| 0 <= b < |order| && order[b] == names[i];
      assert all[a] == all[|typed| + b];
    } else {
      forall i, j | 0 <= i < j < |all| ensures all[i] != all[j] {
        if i < |typed| <= j {
          assert all[j] == order[j - |typed|];
          assert typed[i] in typed;
          EmittedAreSet(names, values, typed[i].0);
        } else if |typed| <= i {
          assert all[i] == order[i - |typed|] && all[j] == order[j - |typed|];
        } else {
          assert NamesOf(typed)[i] != NamesOf(typed)[j];
        }
      }
    }
  }

  lemma {:induction false} EmittedDistinct(names: seq<string>, values: seq<Option<Json>>)
    requires |names| == |values| && Distinct(names)
    ensures Distinct(NamesOf(Emit(names, values)))
  {
    if names != [] {
      var tail := Emit(names[1..], values[1..]);
      EmittedDistinct(names[1..], values[1..]);
      EmittedNames(names[1..], values[1..]);
      var all := NamesOf(Emit(names, values));
      if values[0].Some? {
        assert names[0] !in names[1..];
        forall i, j | 0 <= i < j < |all| ensures all[i] != all[j] {
          assert all[j] == NamesOf(tail)[j - 1] && tail[j - 1] in tail;
          assert i > 0 ==> all[i] == NamesOf(tail)[i - 1];
        }
      } else {
        assert Emit(names, values) == tail;
      }
    }
  }

  ghost predicate IsSet(names: seq<string>, values: seq<Option<Json>>, name: string)
    requires |names| == |values|
  {
    exists k | 0 <= k < |names| :: values[k].Some? && names[k] == name
  }

  lemma {:induction false} EmittedAreSet(names: seq<string>, values: seq<Option<Json>>, name: string)
    requires |names| == |values|
    ensures (exists e <- Emit(names, values) :: e.0 == name) <==> IsSet(names, values, name)
  {
    if names != [] {
      EmittedAreSet(names[1..], values[1..], name);
      if IsSet(names[1..], values[1..], name) {
        var k :| 0 <= k < |names| - 1 && values[1..][k].Some? && names[1..][k] == name;
        assert values[k + 1].Some? && names[k + 1] == name;
      }
      if k :| 0 <= k < |names| && values[k].Some? && names[k] == name {
        if k > 0 {
          assert values[1..][k - 1].Some? && names[1..][k - 1] == name;
        } else {
          assert (names[0], values[0].value) in Emit(names, values);
        }
      }
    }
  }

  lemma {:induction false} ExtraNames(extra: map<string, Json>, order: seq<string>)
    requires forall n <- order :: n in extra
    ensures NamesOf(EmitExtra(extra, order)) == order
  {
    if order != [] {
      ExtraNames(extra, order[1..]);
      assert forall i | 0 < i < |order| :: EmitExtra(extra, order)[i] == EmitExtra(extra, order[1..])[i - 1];
      assert forall i | 0 <= i < |order| - 1 :: NamesOf(EmitExtra(extra, order[1..]))[i] == order[1..][i];
    }
  }
}
