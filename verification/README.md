# ModLoaderDetector — a Dafny model of the loader detection core

ModLoaderDetector reads a Minecraft launch JSON (a version descriptor) and works out which
mod loader it belongs to: Forge, NeoForge, Fabric, Quilt or pre-1.13 ("legacy") Forge. This
project models the detection logic and the small helpers around it. Everything is stated
over an already-parsed JSON tree, and the properties the code promises are proved:

- `wrappers.dfy` (`Wrappers`): `Option` stands for Java's `null` or an empty `Optional`.
  `Result` stands for a call that returns or throws.
- `json.dfy` (`Json`): the Gson tree as a datatype (`JStr | JNum | JBool | JNull | JArr | JObj`).
  It also holds Gson's `getAsString`, including the exceptions it throws: a `null` or an
  object throws `UnsupportedOperationException`. An array throws `IllegalStateException`
  unless it has exactly one element, which it then reads.
- `util.dfy` (`Util`): key lookup with a predicate, `getValidString`, both `getArgument`
  overloads (the `--flag value` scan over a `String[]` and over a `JsonArray`), and
  `hasLaunchTarget`.
- `mod_loader.dfy` (`Loaders`): the `ModLoader` enum, the five `isModLoader` predicates, and
  `findModLoader(JsonObject)`. The last one returns the first loader, in declaration order,
  whose predicate holds.
- `version_type.dfy` (`VersionTypes`): the registry of the four known version types and
  the case-insensitive lookup `from`. The registry is a constant and `from` is a pure
  function, so a lookup cannot change the registry. The accessors `getName` and `isKnown` are the
  datatype's fields `name` and `known`.
- `maven_dependency.dfy` (`Maven`): Java's `String.split(":")`, `MavenDependency.parse`,
  `toString` and `equals`.
- `argument.dfy` (`Arguments`): the three `Argument` constructors and the Gson deserialiser.
  The deserialiser maps a JSON element to an absent list, a present list, or an exception.

A Java exception is modelled as a `Failure` result, not as a precondition. The detector
calls `getAsString` on the `mainClass` member. So `findModLoader` throws exactly when
`mainClass` is present and has no string form, and that is proved
(`Loaders.FindModLoader`, `Loaders.UnreadableMainClassThrows`).

The detector looks only at `mainClass` and the launch target:

- It never matches loaders on the library list.
- It has no catch-all "unknown" loader.
- It never builds a `ModLoaderData` with the game and loader versions.
- `hasLaunchTarget` scans the raw `arguments.game` array. Conditional objects in that array
  are skipped, not flattened into their `values`. `Util.LaunchTargetInsideObjectIsIgnored`
  states this.

## Model

| member | source | states |
|---|---|---|
| `Util.FindValidValue` | src/main/java/me/andreasmelone/modloaderdetector/util/Util.java:33-40 | returns the element exactly when the key is present and the predicate accepts its element; otherwise empty |
| `Util.FindValue` | src/main/java/me/andreasmelone/modloaderdetector/util/Util.java:20-22 | the element under the key exactly when the key is present, whatever the element is |
| `Util.FilteredLookupRefines` | src/main/java/me/andreasmelone/modloaderdetector/util/Util.java:20-40 | the unfiltered lookup finds a key iff it is present; whatever the filtered lookup finds, the unfiltered one finds too |
| `Util.GetValidStringWhere` | src/main/java/me/andreasmelone/modloaderdetector/util/Util.java:52-56 | null iff the key is missing or rejected; throws iff the accepted element has no string form; otherwise that element's string |
| `Util.GetValidString` | src/main/java/me/andreasmelone/modloaderdetector/util/Util.java:67-71 | null iff the key is missing; throws iff its element has no string form; otherwise the element's getAsString text (a string member gives its own text) |
| `Json.AsString` | src/main/java/me/andreasmelone/modloaderdetector/util/Util.java:69 | a string reads as itself, a number as its literal text, a boolean as "true" or "false"; null and objects throw UnsupportedOperation; arrays other than one element throw IllegalState; a one-element array reads as its element |
| `Util.GetArgument` | src/main/java/me/andreasmelone/modloaderdetector/util/Util.java:112-122 | present iff some index i < len-1 holds target; then it is args[i+1] for the least such i; null for arrays shorter than 2 |
| `Util.ArgumentFollowsFlag` | src/main/java/me/andreasmelone/modloaderdetector/util/Util.java:117-118 | a found value sits at an index of at least 1, directly after target |
| `Util.GetJsonArgument` | src/main/java/me/andreasmelone/modloaderdetector/util/Util.java:137-149 | present iff some string element equal to target is followed by a string element; then it is that successor's text for the least such index |
| `Util.JsonArgumentFollowsFlag` | src/main/java/me/andreasmelone/modloaderdetector/util/Util.java:142-145 | a found value is a string element at an index of at least 1, directly after the string target |
| `Util.JsonArgumentMatchesStringArgument` | src/main/java/me/andreasmelone/modloaderdetector/util/Util.java:112-149 | on an array holding only strings, both overloads give the same answer |
| `Util.NonStringValueIsSkipped` | src/main/java/me/andreasmelone/modloaderdetector/util/Util.java:142-146 | a flag followed by a non-string is passed over and the scan continues to a later pair |
| `Util.HasLaunchTarget` | src/main/java/me/andreasmelone/modloaderdetector/util/Util.java:85-97 | throws iff mainClass has no string form; true iff mainClass equals the expected class, arguments is an object, arguments.game an array, and its scan pairs --launchTarget with the expected target |
| `Util.LaunchTargetInsideObjectIsIgnored` | src/main/java/me/andreasmelone/modloaderdetector/util/Util.java:92-96 | a launch target inside a conditional object of arguments.game is not found |
| `Loaders.MainClassEquals` | src/main/java/me/andreasmelone/modloaderdetector/ModLoader.java:49-51 | throws iff mainClass has no string form; true iff mainClass reads as the expected class |
| `Loaders.IsModLoader` | src/main/java/me/andreasmelone/modloaderdetector/ModLoader.java:22-78 | every predicate throws on the same inputs with the same exception; a predicate that holds saw its own main class |
| `Loaders.FirstAccepted` | src/main/java/me/andreasmelone/modloaderdetector/ModLoader.java:95-100 | for any per-loader verdict, the loop returns the first accepted loader with all earlier ones rejected; empty iff every verdict is false; a thrown exception is the first failing verdict, met after rejections only |
| `Loaders.FindFrom` | src/main/java/me/andreasmelone/modloaderdetector/ModLoader.java:95-100 | the loop returns the first loader whose predicate holds, with all earlier ones rejecting; empty iff all reject; throws iff the loop is entered and mainClass has no string form |
| `Loaders.FindModLoader` | src/main/java/me/andreasmelone/modloaderdetector/ModLoader.java:94-101 | the result's predicate holds and no earlier loader's does; empty iff no predicate holds; throws iff mainClass has no string form |
| `Loaders.ForgeIff` | src/main/java/me/andreasmelone/modloaderdetector/ModLoader.java:24-27 | FORGE holds iff mainClass is the bootstrap launcher and arguments.game pairs --launchTarget with forgeclient |
| `Loaders.NeoForgeIff` | src/main/java/me/andreasmelone/modloaderdetector/ModLoader.java:36-39 | NEOFORGE holds iff mainClass is the bootstrap launcher and arguments.game pairs --launchTarget with neoforgeclient |
| `Loaders.MainClassOnlyIff` | src/main/java/me/andreasmelone/modloaderdetector/ModLoader.java:48-76 | FABRIC, QUILT and LEGACY_FORGE hold iff mainClass equals their constant, and reject iff it reads as anything else |
| `Loaders.LoadersExclusive` | src/main/java/me/andreasmelone/modloaderdetector/ModLoader.java:22-78 | no two different loaders both accept one JSON object |
| `Loaders.FindModLoaderIff` | src/main/java/me/andreasmelone/modloaderdetector/ModLoader.java:94-101 | findModLoader returns a loader iff that loader's own predicate holds |
| `Loaders.OrderDoesNotMatter` | src/main/java/me/andreasmelone/modloaderdetector/ModLoader.java:95-99 | scanning the loaders in any order that lists all of them gives the same result as declaration order |
| `Loaders.NoMainClassNoLoader` | src/main/java/me/andreasmelone/modloaderdetector/ModLoader.java:94-100 | an object without mainClass yields empty |
| `Loaders.UnreadableMainClassThrows` | src/main/java/me/andreasmelone/modloaderdetector/util/Util.java:86-87 | a mainClass that is null, an object, or an array of other than one element makes findModLoader throw |
| `Loaders.WrappedMainClassIsRecognised` | src/main/java/me/andreasmelone/modloaderdetector/ModLoader.java:49-51 | a Fabric main class wrapped in a one-element array is still detected as FABRIC |
| `Loaders.ForgeExample` | src/main/java/me/andreasmelone/modloaderdetector/ModLoader.java:22-29 | a concrete Forge launch object is detected as FORGE |
| `Loaders.NeoForgeExample` | src/main/java/me/andreasmelone/modloaderdetector/ModLoader.java:34-41 | a concrete NeoForge launch object, with the target after another flag pair, is detected as NEOFORGE |
| `VersionTypes.RegistryContents` | src/main/java/me/andreasmelone/modloaderdetector/VersionType.java:9-34 | after the four registrations the registry is exactly release, snapshot, old_beta, old_alpha, each mapped to its known type |
| `VersionTypes.RegistryIsKnownByName` | src/main/java/me/andreasmelone/modloaderdetector/VersionType.java:30-34 | every registry entry is a known type filed under its own name, and only the four names are keys |
| `VersionTypes.Register` | src/main/java/me/andreasmelone/modloaderdetector/VersionType.java:30-34 | the new type is known and keeps the name as given; the registry gains exactly the lower-cased name, mapped to the new type, and every other entry is unchanged |
| `VersionTypes.Lower` | src/main/java/me/andreasmelone/modloaderdetector/VersionType.java:44 | same length, each character mapped through ASCII lower-casing |
| `VersionTypes.LowerIsLower` | src/main/java/me/andreasmelone/modloaderdetector/VersionType.java:44 | the lower-cased string has no upper-case letter, and lower-casing it again changes nothing |
| `VersionTypes.From` | src/main/java/me/andreasmelone/modloaderdetector/VersionType.java:42-47 | the name is the lower-cased input; known iff the lower-cased input is one of the four registered names, and then the result is the registered instance |
| `VersionTypes.FromIgnoresCase` | src/main/java/me/andreasmelone/modloaderdetector/VersionType.java:43-45 | from(s) equals from(lower(s)) |
| `VersionTypes.FromIsIdempotent` | src/main/java/me/andreasmelone/modloaderdetector/VersionType.java:42-47 | looking up a result's own name gives that result back |
| `VersionTypes.FromKnownExamples` | src/main/java/me/andreasmelone/modloaderdetector/VersionType.java:11-14 | "RELEASE" and "release" give RELEASE; "Old_Beta" gives OLD_BETA |
| `VersionTypes.FromUnknownExample` | src/main/java/me/andreasmelone/modloaderdetector/VersionType.java:45 | "Pending" gives an unknown type named "pending" |
| `VersionTypes.Equals` | src/main/java/me/andreasmelone/modloaderdetector/VersionType.java:70-75 | two version types are equal iff they are the same value (same name, same known flag) |
| `Maven.JavaSplit` | src/main/java/me/andreasmelone/modloaderdetector/util/MavenDependency.java:39 | a colon-free string comes back whole; otherwise the pieces between colons, in order, with exactly the trailing empty pieces dropped |
| `Maven.ToString` | src/main/java/me/andreasmelone/modloaderdetector/util/MavenDependency.java:57-59 | the three fields joined by colons, which split back into exactly the three fields when none of them holds a colon |
| `Maven.Parse` | src/main/java/me/andreasmelone/modloaderdetector/util/MavenDependency.java:38-42 | null iff the Java split gives fewer than 3 pieces; otherwise the first three colon-separated pieces verbatim, none containing a colon |
| `Maven.ParsedIsPrefix` | src/main/java/me/andreasmelone/modloaderdetector/util/MavenDependency.java:39-41 | the notation starts with the parsed fields joined by colons, followed by nothing or by a colon and further pieces |
| `Maven.ParseToString` | src/main/java/me/andreasmelone/modloaderdetector/util/MavenDependency.java:38-59 | parse(toString(d)) is d when no field holds a colon and the version is non-empty |
| `Maven.EmptyVersionIsLost` | src/main/java/me/andreasmelone/modloaderdetector/util/MavenDependency.java:39-40 | "a:b:" parses to null because the trailing empty piece is dropped |
| `Maven.ParseFabricLoader` | src/main/java/me/andreasmelone/modloaderdetector/util/MavenDependency.java:38-41 | "net.fabricmc:fabric-loader:0.16.0" parses to its three parts |
| `Maven.ParseKeepsInteriorEmpty` | src/main/java/me/andreasmelone/modloaderdetector/util/MavenDependency.java:39-41 | "a::c" parses with an empty artifactId |
| `Maven.ParseTooFewPieces` | src/main/java/me/andreasmelone/modloaderdetector/util/MavenDependency.java:40 | "a:b" parses to null |
| `Maven.ParseIgnoresExtraPieces` | src/main/java/me/andreasmelone/modloaderdetector/util/MavenDependency.java:41 | "a:b:c:d" parses to (a, b, c) |
| `Maven.Equals` | src/main/java/me/andreasmelone/modloaderdetector/util/MavenDependency.java:45-49 | equals holds iff the two dependencies are the same value |
| `Arguments.NoValues` | src/main/java/me/andreasmelone/modloaderdetector/versionjson/Argument.java:13 | the no-argument constructor leaves the list absent |
| `Arguments.OfValue` | src/main/java/me/andreasmelone/modloaderdetector/versionjson/Argument.java:15-17 | the string constructor gives a one-element list holding the value |
| `Arguments.OfValues` | src/main/java/me/andreasmelone/modloaderdetector/versionjson/Argument.java:19-21 | the list constructor gives a present list with the same elements in the same order |
| `Arguments.AsStrings` | src/main/java/me/andreasmelone/modloaderdetector/versionjson/Argument.java:37-40 | succeeds iff every element has a string form, and then gives each element's string in order; otherwise throws the first failing element's exception |
| `Arguments.Deserialize` | src/main/java/me/andreasmelone/modloaderdetector/versionjson/Argument.java:29-49 | a string gives [s]; the list is present iff the input is a string or an object with a values array; anything else gives an absent list; throws iff some element of that array has no string form, and otherwise the list holds each element's string in order |
| `Arguments.DeserializeStringValues` | src/main/java/me/andreasmelone/modloaderdetector/versionjson/Argument.java:34-40 | an object whose values array holds strings gives exactly those strings in order |
| `Arguments.EmptyValuesArePresent` | src/main/java/me/andreasmelone/modloaderdetector/versionjson/Argument.java:37-40 | "values": [] gives a present empty list, different from the absent one |
| `Arguments.DeserializeAbsentCases` | src/main/java/me/andreasmelone/modloaderdetector/versionjson/Argument.java:41-46 | a non-array or missing values, null, numbers, booleans and arrays all give an absent list |
| `Arguments.DeserializeConditionalExample` | src/main/java/me/andreasmelone/modloaderdetector/versionjson/Argument.java:34-48 | a rules-and-values object gives its values ["--extra", "x"] |

## Left out

- `findModLoader(String)`, `findModLoader(Path)`, `findModLoader(File)` and the `GSON`
  instance: JSON text parsing and file reads. The model starts from the parsed JSON tree.
- `standalone/Main.java`: directory listing and console output.
- `versionjson/MinecraftVersionJson.java`: a field holder with getters and no logic. Nothing
  in the detection path reads it.
- `ModLoaderData.java`: a plain record that the detection code never builds. Its `equals`
  compares version types by reference, which has no value-level counterpart.
- `hashCode` and `toString` of `VersionType` and `ModLoaderData`. `VersionType.toString`
  returns the name, which is the `name` field.
- `VersionTypes.From`: lowercases ASCII letters only. Java's `toLowerCase(Locale.ROOT)`
  also maps non-ASCII letters, and Unicode case mapping is not modelled.
- `Util.GetArgument`: the array elements are non-null strings. A `null` element before the
  target makes Java throw a `NullPointerException`, and that is not modelled.
- JSON objects are maps. Member order and Gson's handling of duplicate keys are not modelled.
- `Json.AsString`: a number reads as its literal text, which is what Gson's lazily parsed
  numbers print. Numbers are not given a numeric value, because nothing here compares them.
