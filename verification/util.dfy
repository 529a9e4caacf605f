/** Key lookup in JSON objects and `--flag value` scans over argument lists. */
module Util {
  import opened Wrappers
  import opened Json

  /** The element under `key`, kept only when `pred` accepts it (Util.findValidValue). */
  function FindValidValue(obj: JsonObject, key: string, pred: Json -> bool): (r: Option<Json>)
    ensures r.Some? <==> key in obj && pred(obj[key])
    ensures r.Some? ==> r.value == obj[key] && pred(r.value)
  {
    if key !in obj then None
    else if pred(obj[key]) then Some(obj[key])
    else None
  }

  /** The element under `key`, whatever it is (the two-argument findValidValue). */
  function FindValue(obj: JsonObject, key: string): (r: Option<Json>)
    ensures r.Some? <==> key in obj
    ensures r.Some? ==> r.value == obj[key]
  {
    FindValidValue(obj, key, _ => true)
  }

  /** Every element `pred` accepts is also found by the unfiltered lookup, and the
      filtered lookup never invents a member. */
  lemma FilteredLookupRefines(obj: JsonObject, key: string, pred: Json -> bool)
    ensures FindValidValue(obj, key, pred).Some? ==> FindValue(obj, key) == FindValidValue(obj, key, pred)
    ensures FindValue(obj, key).None? ==> FindValidValue(obj, key, pred).None?
    ensures FindValue(obj, key).Some? <==> key in obj
  {
  }

  /** Util.getValidString with a predicate: `Success(None)` is Java's `null`, and a
      `Failure` is the exception getAsString throws on the found element. */
  function GetValidStringWhere(obj: JsonObject, key: string, pred: Json -> bool): (r: Result<Option<string>, Exception>)
    ensures r == Success(None) <==> key !in obj || !pred(obj[key])
    ensures r.Failure? <==> key in obj && pred(obj[key]) && AsString(obj[key]).Failure?
    ensures r.Success? && r.value.Some? ==> key in obj && AsString(obj[key]) == Success(r.value.value)
  {
    match FindValidValue(obj, key, pred)
    case None => Success(None)
    case Some(e) =>
      match AsString(e)
      case Success(s) => Success(Some(s))
      case Failure(x) => Failure(x)
  }

  /** Util.getValidString without a predicate. */
  function GetValidString(obj: JsonObject, key: string): (r: Result<Option<string>, Exception>)
    ensures r == Success(None) <==> key !in obj
    ensures r.Failure? <==> key in obj && AsString(obj[key]).Failure?
    ensures key in obj && obj[key].JStr? ==> r == Success(Some(obj[key].str))
    ensures r.Success? && r.value.Some? ==> key in obj && AsString(obj[key]) == Success(r.value.value)
  {
    GetValidStringWhere(obj, key, _ => true)
  }

  // ---------------------------------------------------------------------------
  // getArgument over a String[]

  /** `args[i]` is the flag `target` and has a successor to pair with. */
  ghost predicate IsFlagAt(args: seq<string>, target: string, i: int) {
    0 <= i < |args| - 1 && args[i] == target
  }

  /** The scan of Util.getArgument(String[], String) from position `i` on. */
  function ArgumentFrom(args: seq<string>, target: string, i: nat): (r: Option<string>)
    ensures r.Some? <==> exists k :: i <= k && IsFlagAt(args, target, k)
    ensures r.Some? ==> exists k :: i <= k && IsFlagAt(args, target, k) && r.value == args[k + 1]
                                    && forall m :: i <= m < k ==> !IsFlagAt(args, target, m)
    decreases |args| - i
  {
    if i + 1 >= |args| then None
    else if args[i] == target then assert IsFlagAt(args, target, i); Some(args[i + 1])
    else ArgumentFrom(args, target, i + 1)
  }

  /** Util.getArgument(String[], String): the element right after the first occurrence
      of `target` that has a successor, or `None` (Java's `null`). */
  function GetArgument(args: seq<string>, target: string): (r: Option<string>)
    ensures r.Some? <==> exists k :: IsFlagAt(args, target, k)
    ensures r.Some? ==> exists k :: IsFlagAt(args, target, k) && r.value == args[k + 1]
                                    && forall m :: 0 <= m < k ==> !IsFlagAt(args, target, m)
    ensures |args| < 2 ==> r.None?
  {
    ArgumentFrom(args, target, 0)
  }

  /** A value found by getArgument sits at an index of at least 1 and directly follows `target`. */
  lemma ArgumentFollowsFlag(args: seq<string>, target: string)
    requires GetArgument(args, target).Some?
    ensures exists j :: 1 <= j < |args| && args[j - 1] == target && args[j] == GetArgument(args, target).value
  {
  }

  // ---------------------------------------------------------------------------
  // getArgument over a JsonArray

  /** `args[i]` is the string `target` and is followed by another string element. */
  ghost predicate IsJsonFlagAt(args: seq<Json>, target: string, i: int) {
    0 <= i < |args| - 1 && args[i] == JStr(target) && IsString(args[i + 1])
  }

  /** The scan of Util.getArgument(JsonArray, String) from position `i` on. */
  function JsonArgumentFrom(args: seq<Json>, target: string, i: nat): (r: Option<string>)
    ensures r.Some? <==> exists k :: i <= k && IsJsonFlagAt(args, target, k)
    ensures r.Some? ==> exists k :: i <= k && IsJsonFlagAt(args, target, k) && JStr(r.value) == args[k + 1]
                                    && forall m :: i <= m < k ==> !IsJsonFlagAt(args, target, m)
    decreases |args| - i
  {
    if i + 1 >= |args| then None
    else if IsString(args[i]) && args[i].str == target && IsString(args[i + 1]) then
      assert IsJsonFlagAt(args, target, i); Some(args[i + 1].str)
    else JsonArgumentFrom(args, target, i + 1)
  }

  /** Util.getArgument(JsonArray, String): only a string flag directly followed by a
      string value pairs up; a flag followed by anything else is passed over. */
  function GetJsonArgument(args: seq<Json>, target: string): (r: Option<string>)
    ensures r.Some? <==> exists k :: IsJsonFlagAt(args, target, k)
    ensures r.Some? ==> exists k :: IsJsonFlagAt(args, target, k) && JStr(r.value) == args[k + 1]
                                    && forall m :: 0 <= m < k ==> !IsJsonFlagAt(args, target, m)
  {
    JsonArgumentFrom(args, target, 0)
  }

  /** A value found in a JSON array is a string element at an index of at least 1
      that directly follows the string `target`. */
  lemma JsonArgumentFollowsFlag(args: seq<Json>, target: string)
    requires GetJsonArgument(args, target).Some?
    ensures exists j :: 1 <= j < |args| && args[j - 1] == JStr(target) && args[j] == JStr(GetJsonArgument(args, target).value)
  {
  }

  /** `elems` is a JSON array holding exactly the strings `strs`, in order. */
  ghost predicate HoldsStrings(elems: seq<Json>, strs: seq<string>) {
    |elems| == |strs| && forall i :: 0 <= i < |elems| ==> elems[i] == JStr(strs[i])
  }

  lemma {:induction false} ScansAgreeFrom(elems: seq<Json>, strs: seq<string>, target: string, i: nat)
    requires HoldsStrings(elems, strs)
    ensures JsonArgumentFrom(elems, target, i) == ArgumentFrom(strs, target, i)
    decreases |elems| - i
  {
    if i + 1 < |elems| {
      assert elems[i] == JStr(strs[i]) && elems[i + 1] == JStr(strs[i + 1]);
      ScansAgreeFrom(elems, strs, target, i + 1);
    }
  }

  /** On an array of strings the two getArgument overloads give the same answer. */
  lemma JsonArgumentMatchesStringArgument(elems: seq<Json>, strs: seq<string>, target: string)
    requires HoldsStrings(elems, strs)
    ensures GetJsonArgument(elems, target) == GetArgument(strs, target)
  {
    ScansAgreeFrom(elems, strs, target, 0);
  }

  /** A flag whose successor is not a string is skipped and the scan goes on:
      `["--t", 1, "--t", "x"]` yields "x". */
  lemma NonStringValueIsSkipped()
    ensures GetJsonArgument([JStr("--t"), JNum("1"), JStr("--t"), JStr("x")], "--t") == Some("x")
  {
  }

  // ---------------------------------------------------------------------------
  // hasLaunchTarget

  /** The `mainClass` member read as a string, when it has a string form. */
  ghost function MainClassOf(json: JsonObject): Option<string> {
    if "mainClass" in json && AsString(json["mainClass"]).Success? then Some(AsString(json["mainClass"]).value)
    else None
  }

  /** reading `mainClass` throws: it is present but has no string form. */
  ghost predicate MainClassThrows(json: JsonObject) {
    "mainClass" in json && AsString(json["mainClass"]).Failure?
  }

  /** The raw `arguments.game` array, when `arguments` is an object and `game` an array in it. */
  ghost function GameArgumentsOf(json: JsonObject): Option<seq<Json>> {
    if "arguments" in json && json["arguments"].JObj?
       && "game" in json["arguments"].fields && json["arguments"].fields["game"].JArr?
    then Some(json["arguments"].fields["game"].elems)
    else None
  }

  /** Util.hasLaunchTarget: the main class is `expectedMain` and the raw `arguments.game`
      array pairs `--launchTarget` with `expectedTarget`. Reading a `mainClass` with no
      string form throws before anything else is looked at. */
  function HasLaunchTarget(json: JsonObject, expectedMain: string, expectedTarget: string): (r: Result<bool, Exception>)
    ensures r.Failure? <==> MainClassThrows(json)
    ensures r.Failure? ==> r.error == AsString(json["mainClass"]).error
    ensures r == Success(true) <==>
              && MainClassOf(json) == Some(expectedMain)
              && GameArgumentsOf(json).Some?
              && GetJsonArgument(GameArgumentsOf(json).value, "--launchTarget") == Some(expectedTarget)
  {
    match GetValidString(json, "mainClass")
    case Failure(x) => Failure(x)
    case Success(mainClass) =>
      if mainClass != Some(expectedMain) then Success(false)
      else
        match FindValidValue(json, "arguments", (e: Json) => e.JObj?)
        case None => Success(false)
        case Some(argsObj) =>
          match FindValidValue(argsObj.fields, "game", (e: Json) => e.JArr?)
          case None => Success(false)
          case Some(gameArgs) =>
            Success(GetJsonArgument(gameArgs.elems, "--launchTarget") == Some(expectedTarget))
  }

  /** Conditional objects in `arguments.game` are never looked into: a launch target
      that appears only inside an object's `values` is not found. */
  lemma LaunchTargetInsideObjectIsIgnored(main: string, target: string)
    ensures var game := JObj(map["values" := JArr([JStr("--launchTarget"), JStr(target)])]);
            var json := map["mainClass" := JStr(main), "arguments" := JObj(map["game" := JArr([game])])];
            HasLaunchTarget(json, main, target) == Success(false)
  {
  }
}
