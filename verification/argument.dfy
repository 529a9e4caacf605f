/** One launch argument of a version JSON and its Gson deserialiser. */
module Arguments {
  import opened Wrappers
  import opened Json

  /** An argument's value list; `None` is the `null` list of the no-argument constructor,
      which is not the same as a present, empty list. */
  datatype Argument = Argument(values: Option<seq<string>>)

  /** `new Argument()`. */
  function NoValues(): (r: Argument)
    ensures r.values.None?
  {
    Argument(None)
  }

  /** `new Argument(String)`: a one-element list. */
  function OfValue(value: string): (r: Argument)
    ensures r.values.Some? && |r.values.value| == 1 && r.values.value[0] == value
  {
    Argument(Some([value]))
  }

  /** `new Argument(List<String>)`: a copy of the list, same elements in the same order. */
  function OfValues(values: seq<string>): (r: Argument)
    ensures r.values.Some? && |r.values.value| == |values|
    ensures forall i :: 0 <= i < |values| ==> r.values.value[i] == values[i]
  {
    Argument(Some(values))
  }

  /** Reads every element with getAsString, front to back; the first element with no
      string form throws. */
  function AsStrings(elems: seq<Json>): (r: Result<seq<string>, Exception>)
    ensures r.Success? <==> forall i :: 0 <= i < |elems| ==> AsString(elems[i]).Success?
    ensures r.Success? ==> |r.value| == |elems|
                           && forall i :: 0 <= i < |elems| ==> AsString(elems[i]) == Success(r.value[i])
    ensures r.Failure? ==> exists i :: 0 <= i < |elems| && AsString(elems[i]) == Failure(r.error)
                                       && forall k :: 0 <= k < i ==> AsString(elems[k]).Success?
    decreases |elems|
  {
    if |elems| == 0 then Success([])
    else
      var init := elems[..|elems| - 1];
      var last := elems[|elems| - 1];
      assert forall i :: 0 <= i < |init| ==> init[i] == elems[i];
      match AsStrings(init)
      case Failure(x) => Failure(x)
      case Success(vs) =>
        match AsString(last)
        case Failure(x) => Failure(x)
        case Success(v) => Success(vs + [v])
  }

  /** `json` is an object whose `values` member is an array. */
  ghost predicate HasValuesArray(json: Json) {
    json.JObj? && "values" in json.fields && json.fields["values"].JArr?
  }

  /** Argument.Serializer.deserialize: a string becomes a one-element list, an object
      with a `values` array becomes that array's strings, and anything else an absent list. */
  function Deserialize(json: Json): (r: Result<Argument, Exception>)
    ensures json.JStr? ==> r == Success(OfValue(json.str))
    ensures !json.JStr? && !HasValuesArray(json) ==> r == Success(NoValues())
    ensures r.Success? ==> (r.value.values.Some? <==> json.JStr? || HasValuesArray(json))
    ensures HasValuesArray(json) ==> (r.Failure? <==> exists i :: 0 <= i < |json.fields["values"].elems|
                                                              && AsString(json.fields["values"].elems[i]).Failure?)
    ensures HasValuesArray(json) && r.Success? ==>
              var elems := json.fields["values"].elems;
              |r.value.values.value| == |elems|
              && forall i :: 0 <= i < |elems| ==> AsString(elems[i]) == Success(r.value.values.value[i])
  {
    match json
    case JStr(s) => Success(OfValues([s]))
    case JObj(obj) =>
      if "values" in obj && obj["values"].JArr? then
        match AsStrings(obj["values"].elems)
        case Failure(x) => Failure(x)
        case Success(vs) => Success(OfValues(vs))
      else Success(NoValues())
    case _ => Success(NoValues())
  }

  /** An object whose `values` array holds only strings gives exactly those strings,
      in order. */
  lemma DeserializeStringValues(obj: map<string, Json>, strs: seq<string>)
    requires "values" in obj && obj["values"].JArr?
    requires |obj["values"].elems| == |strs|
    requires forall i :: 0 <= i < |strs| ==> obj["values"].elems[i] == JStr(strs[i])
    ensures Deserialize(JObj(obj)) == Success(OfValues(strs))
  {
    var r := AsStrings(obj["values"].elems);
    assert r.Success?;
    assert r.value == strs;
  }

  /** `"values": []` is a present, empty list, not an absent one. */
  lemma EmptyValuesArePresent()
    ensures Deserialize(JObj(map["values" := JArr([])])) == Success(Argument(Some([])))
    ensures Deserialize(JObj(map["values" := JArr([])])) != Deserialize(JObj(map[]))
  {
  }

  /** A `values` member that is not an array, or `null`, gives an absent list, just as a
      missing one does; so do numbers, booleans, arrays and `null` themselves. */
  lemma DeserializeAbsentCases(v: Json, elems: seq<Json>)
    requires !v.JArr?
    ensures Deserialize(JObj(map["values" := v])) == Success(NoValues())
    ensures Deserialize(JObj(map["rules" := JArr([])])) == Success(NoValues())
    ensures Deserialize(JNull) == Success(NoValues())
    ensures Deserialize(JArr(elems)) == Success(NoValues())
    ensures Deserialize(JNum("1")) == Success(NoValues())
    ensures Deserialize(JBool(true)) == Success(NoValues())
  {
  }

  /** A conditional argument as found in launch JSON files. */
  lemma DeserializeConditionalExample()
    ensures Deserialize(JObj(map["rules" := JArr([]), "values" := JArr([JStr("--extra"), JStr("x")])]))
              == Success(OfValues(["--extra", "x"]))
  {
    DeserializeStringValues(map["rules" := JArr([]), "values" := JArr([JStr("--extra"), JStr("x")])], ["--extra", "x"]);
  }
}
