/** The mod-loader enum and its first-match detection over a launch JSON object. */
module Loaders {
  import opened Wrappers
  import opened Json
  import opened Util

  /** The supported loaders, in the enum's declaration order. */
  datatype ModLoader = Forge | NeoForge | Fabric | Quilt | LegacyForge

  /** `ModLoader.values()`: the order in which detection tries the loaders. */
  const Values: seq<ModLoader> := [Forge, NeoForge, Fabric, Quilt, LegacyForge]

  const BootstrapMain := "cpw.mods.bootstraplauncher.BootstrapLauncher"
  const FabricMain := "net.fabricmc.loader.impl.launch.knot.KnotClient"
  const QuiltMain := "org.quiltmc.loader.impl.launch.knot.KnotClient"
  const LaunchwrapperMain := "net.minecraft.launchwrapper.Launch"

  /** The main class each loader's predicate asks for. */
  function ExpectedMain(l: ModLoader): string {
    match l
    case Forge => BootstrapMain
    case NeoForge => BootstrapMain
    case Fabric => FabricMain
    case Quilt => QuiltMain
    case LegacyForge => LaunchwrapperMain
  }

  /** Whether the readable `mainClass` member is `expectedMain`; a missing member is no
      match, and an unreadable one throws. */
  function MainClassEquals(json: JsonObject, expectedMain: string): (r: Result<bool, Exception>)
    ensures r.Failure? <==> MainClassThrows(json)
    ensures r == Success(true) <==> MainClassOf(json) == Some(expectedMain)
  {
    match GetValidString(json, "mainClass")
    case Failure(x) => Failure(x)
    case Success(mainClass) => Success(mainClass == Some(expectedMain))
  }

  /** `isModLoader` of each enum constant. Every one of them reads `mainClass` first,
      so all of them throw on exactly the same inputs, with the same exception. */
  function IsModLoader(l: ModLoader, json: JsonObject): (r: Result<bool, Exception>)
    ensures r.Failure? <==> MainClassThrows(json)
    ensures r.Failure? ==> r.error == AsString(json["mainClass"]).error
    ensures r == Success(true) ==> MainClassOf(json) == Some(ExpectedMain(l))
  {
    match l
    case Forge => HasLaunchTarget(json, BootstrapMain, "forgeclient")
    case NeoForge => HasLaunchTarget(json, BootstrapMain, "neoforgeclient")
    case Fabric => MainClassEquals(json, FabricMain)
    case Quilt => MainClassEquals(json, QuiltMain)
    case LegacyForge => MainClassEquals(json, LaunchwrapperMain)
  }

  /** Loader `loaders[k]` rejected `json` for every `k < i`. */
  ghost predicate AllRejectBefore(loaders: seq<ModLoader>, json: JsonObject, i: int)
    requires i <= |loaders|
  {
    forall k :: 0 <= k < i ==> IsModLoader(loaders[k], json) == Success(false)
  }

  /** Every loader appears in `Values`. */
  lemma ValuesListsAll(l: ModLoader)
    ensures exists k :: 0 <= k < |Values| && Values[k] == l
  {
    match l
    case Forge => assert Values[0] == l;
    case NeoForge => assert Values[1] == l;
    case Fabric => assert Values[2] == l;
    case Quilt => assert Values[3] == l;
    case LegacyForge => assert Values[4] == l;
  }

  /** The detection loop from position `i` of `loaders` on, for any per-loader verdict:
      the first loader judged `true`, `None` when all are judged `false`, and the first
      exception met on the way. */
  function FirstAccepted(loaders: seq<ModLoader>, verdict: ModLoader -> Result<bool, Exception>, i: nat)
    : (r: Result<Option<ModLoader>, Exception>)
    requires i <= |loaders|
    ensures r.Success? && r.value.Some? ==>
              exists k :: i <= k < |loaders| && loaders[k] == r.value.value
                          && verdict(loaders[k]) == Success(true)
                          && forall m :: i <= m < k ==> verdict(loaders[m]) == Success(false)
    ensures r == Success(None) <==> forall k :: i <= k < |loaders| ==> verdict(loaders[k]) == Success(false)
    ensures r.Failure? ==>
              exists k :: i <= k < |loaders| && verdict(loaders[k]) == Failure(r.error)
                          && forall m :: i <= m < k ==> verdict(loaders[m]) == Success(false)
    decreases |loaders| - i
  {
    if i == |loaders| then Success(None)
    else
      match verdict(loaders[i])
      case Failure(x) => Failure(x)
      case Success(true) => Success(Some(loaders[i]))
      case Success(false) => FirstAccepted(loaders, verdict, i + 1)
  }

  /** findModLoader's loop over `loaders` from position `i`: since every predicate throws
      exactly when `mainClass` cannot be read, the loop throws exactly then, and otherwise
      answers with the first loader whose predicate holds. */
  function FindFrom(loaders: seq<ModLoader>, json: JsonObject, i: nat): (r: Result<Option<ModLoader>, Exception>)
    requires i <= |loaders|
    ensures r.Success? && r.value.Some? ==>
              exists k :: i <= k < |loaders| && loaders[k] == r.value.value
                          && IsModLoader(loaders[k], json) == Success(true)
                          && forall m :: i <= m < k ==> IsModLoader(loaders[m], json) == Success(false)
    ensures r == Success(None) <==> forall k :: i <= k < |loaders| ==> IsModLoader(loaders[k], json) == Success(false)
    ensures r.Failure? <==> i < |loaders| && MainClassThrows(json)
  {
    var verdict := (l: ModLoader) => IsModLoader(l, json);
    var r := FirstAccepted(loaders, verdict, i);
    assert r.Failure? ==> MainClassThrows(json);
    assert i < |loaders| && MainClassThrows(json) ==> r.Failure? by {
      if i < |loaders| && MainClassThrows(json) {
        assert verdict(loaders[i]).Failure?;
      }
    }
    r
  }

  /** ModLoader.findModLoader(JsonObject): the first loader in declaration order whose
      predicate holds; no earlier loader's predicate holds. */
  function FindModLoader(json: JsonObject): (r: Result<Option<ModLoader>, Exception>)
    ensures r.Success? && r.value.Some? ==>
              exists k :: 0 <= k < |Values| && Values[k] == r.value.value
                          && IsModLoader(Values[k], json) == Success(true)
                          && AllRejectBefore(Values, json, k)
    ensures r == Success(None) <==> forall l :: IsModLoader(l, json) == Success(false)
    ensures r.Failure? <==> MainClassThrows(json)
  {
    var r := FindFrom(Values, json, 0);
    assert r == Success(None) <==> forall l :: IsModLoader(l, json) == Success(false) by {
      if r == Success(None) {
        forall l ensures IsModLoader(l, json) == Success(false) {
          ValuesListsAll(l);
          var k :| 0 <= k < |Values| && Values[k] == l;
        }
      }
    }
    r
  }

  // ---------------------------------------------------------------------------
  // The individual predicates

  /** FORGE holds iff the main class is the bootstrap launcher and the raw game
      arguments pair `--launchTarget` with `forgeclient`. */
  lemma ForgeIff(json: JsonObject)
    ensures IsModLoader(Forge, json) == Success(true) <==>
              && MainClassOf(json) == Some(BootstrapMain)
              && GameArgumentsOf(json).Some?
              && GetJsonArgument(GameArgumentsOf(json).value, "--launchTarget") == Some("forgeclient")
  {
  }

  /** NEOFORGE is FORGE with the launch target `neoforgeclient`. */
  lemma NeoForgeIff(json: JsonObject)
    ensures IsModLoader(NeoForge, json) == Success(true) <==>
              && MainClassOf(json) == Some(BootstrapMain)
              && GameArgumentsOf(json).Some?
              && GetJsonArgument(GameArgumentsOf(json).value, "--launchTarget") == Some("neoforgeclient")
  {
  }

  /** FABRIC, QUILT and LEGACY_FORGE look at `mainClass` alone. */
  lemma MainClassOnlyIff(l: ModLoader, json: JsonObject)
    requires l in {Fabric, Quilt, LegacyForge}
    ensures IsModLoader(l, json) == Success(true) <==> MainClassOf(json) == Some(ExpectedMain(l))
    ensures IsModLoader(l, json) == Success(false) <==> !MainClassThrows(json) && MainClassOf(json) != Some(ExpectedMain(l))
  {
  }

  /** No two loaders accept the same JSON: the four main classes differ, and FORGE and
      NEOFORGE would need one flag lookup to yield two different targets. */
  lemma LoadersExclusive(a: ModLoader, b: ModLoader, json: JsonObject)
    requires IsModLoader(a, json) == Success(true) && IsModLoader(b, json) == Success(true)
    ensures a == b
  {
  }

  /** findModLoader returns `l` exactly when `l`'s own predicate holds. */
  lemma FindModLoaderIff(json: JsonObject, l: ModLoader)
    ensures FindModLoader(json) == Success(Some(l)) <==> IsModLoader(l, json) == Success(true)
  {
  }

  /** Because the predicates exclude each other and throw together, trying the loaders
      in any order that lists each of them gives the same answer as declaration order. */
  lemma {:induction false} OrderDoesNotMatter(order: seq<ModLoader>, json: JsonObject)
    requires forall l :: l in order
    ensures FindFrom(order, json, 0) == FindModLoader(json)
  {
    var r := FindFrom(order, json, 0);
    var s := FindModLoader(json);
    assert Forge in order;
    if MainClassThrows(json) {
      assert r == Failure(IsModLoader(order[0], json).error);
    } else if r.Success? && r.value.Some? {
      var k :| 0 <= k < |order| && order[k] == r.value.value && IsModLoader(order[k], json) == Success(true);
      FindModLoaderIff(json, order[k]);
    } else {
      assert r == Success(None);
      forall l ensures IsModLoader(l, json) == Success(false) {
        assert l in order;
        var k :| 0 <= k < |order| && order[k] == l;
      }
    }
  }

  /** A JSON object without `mainClass` matches no loader. */
  lemma NoMainClassNoLoader(json: JsonObject)
    requires "mainClass" !in json
    ensures FindModLoader(json) == Success(None)
  {
  }

  /** A `mainClass` that is `null`, an object, or an array of other than one element
      makes findModLoader throw instead of answering. */
  lemma UnreadableMainClassThrows(json: JsonObject)
    requires "mainClass" in json
    requires json["mainClass"].JNull? || json["mainClass"].JObj? || (json["mainClass"].JArr? && |json["mainClass"].elems| != 1)
    ensures FindModLoader(json).Failure?
  {
  }

  /** Gson reads a one-element array as its element, so a main class wrapped in an
      array is still recognised. */
  lemma WrappedMainClassIsRecognised()
    ensures FindModLoader(map["mainClass" := JArr([JStr(FabricMain)])]) == Success(Some(Fabric))
  {
  }

  /** A modern Forge launch JSON is detected as FORGE. */
  lemma ForgeExample()
    ensures var game := JArr([JStr("--launchTarget"), JStr("forgeclient"), JStr("--fml.forgeVersion"), JStr("47.2.0")]);
            FindModLoader(map["mainClass" := JStr(BootstrapMain), "arguments" := JObj(map["game" := game])])
              == Success(Some(Forge))
  {
    var g := [JStr("--launchTarget"), JStr("forgeclient"), JStr("--fml.forgeVersion"), JStr("47.2.0")];
    var json := map["mainClass" := JStr(BootstrapMain), "arguments" := JObj(map["game" := JArr(g)])];
    assert GetJsonArgument(g, "--launchTarget") == Some("forgeclient");
    assert json["mainClass"] == JStr(BootstrapMain) && MainClassOf(json) == Some(BootstrapMain);
    assert json["arguments"].fields["game"] == JArr(g) && GameArgumentsOf(json) == Some(g);
    ForgeIff(json);
    FindModLoaderIff(json, Forge);
  }

  /** A NeoForge launch JSON, whose launch target comes after another flag pair, is
      detected as NEOFORGE. */
  lemma NeoForgeExample()
    ensures var game := JArr([JStr("--fml.neoForgeVersion"), JStr("21.0.1"), JStr("--launchTarget"), JStr("neoforgeclient")]);
            FindModLoader(map["mainClass" := JStr(BootstrapMain), "arguments" := JObj(map["game" := game])])
              == Success(Some(NeoForge))
  {
    var g := [JStr("--fml.neoForgeVersion"), JStr("21.0.1"), JStr("--launchTarget"), JStr("neoforgeclient")];
    var json := map["mainClass" := JStr(BootstrapMain), "arguments" := JObj(map["game" := JArr(g)])];
    assert JsonArgumentFrom(g, "--launchTarget", 2) == Some("neoforgeclient");
    assert JsonArgumentFrom(g, "--launchTarget", 1) == Some("neoforgeclient");
    assert json["mainClass"] == JStr(BootstrapMain) && MainClassOf(json) == Some(BootstrapMain);
    assert json["arguments"].fields["game"] == JArr(g) && GameArgumentsOf(json) == Some(g);
    NeoForgeIff(json);
    FindModLoaderIff(json, NeoForge);
  }
}
