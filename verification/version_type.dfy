/** Minecraft version types: a fixed registry of four known names, and lookup by name. */
module VersionTypes {

  /** A version type: its lower-case name and whether it is one of the registered ones. */
  datatype VersionType = VersionType(name: string, known: bool)

  predicate IsUpper(c: char) {
    'A' <= c <= 'Z'
  }

  /** `Character.toLowerCase` restricted to ASCII. */
  function LowerChar(c: char): (r: char)
    ensures !IsUpper(r)
    ensures !IsUpper(c) ==> r == c
  {
    if IsUpper(c) then (c as int + 32) as char else c
  }

  /** `toLowerCase(Locale.ROOT)` restricted to ASCII letters. */
  function Lower(s: string): (r: string)
    ensures |r| == |s|
    ensures forall i :: 0 <= i < |s| ==> r[i] == LowerChar(s[i])
  {
    seq(|s|, i requires 0 <= i < |s| => LowerChar(s[i]))
  }

  /** `s` holds no upper-case ASCII letter. */
  ghost predicate IsLower(s: string) {
    forall i :: 0 <= i < |s| ==> !IsUpper(s[i])
  }

  /** Lowering leaves a string that lowering does not change any more. */
  lemma LowerIsLower(s: string)
    ensures IsLower(Lower(s))
    ensures Lower(Lower(s)) == Lower(s)
  {
  }

  type Registry = map<string, VersionType>

  /** VersionType.register: a new known type carrying `name` as given, filed under the
      lower case of `name`; every other entry stays as it was. */
  function Register(reg: Registry, name: string): (r: (Registry, VersionType))
    ensures r.1.name == name && r.1.known
    ensures r.0.Keys == reg.Keys + {Lower(name)} && r.0[Lower(name)] == r.1
    ensures forall k :: k in reg && k != Lower(name) ==> r.0[k] == reg[k]
  {
    var t := VersionType(name, true);
    (reg[Lower(name) := t], t)
  }

  /** The names the static initialiser registers, in order. */
  const KnownNames: seq<string> := ["release", "snapshot", "old_beta", "old_alpha"]

  /** Registers `names` one after another, as the static field initialisers do. */
  function RegisterAll(reg: Registry, names: seq<string>): Registry
    decreases |names|
  {
    if |names| == 0 then reg else RegisterAll(Register(reg, names[0]).0, names[1..])
  }

  /** The registry after class initialisation. */
  const KnownTypes: Registry := RegisterAll(map[], KnownNames)

  const Release := VersionType("release", true)
  const Snapshot := VersionType("snapshot", true)
  const OldBeta := VersionType("old_beta", true)
  const OldAlpha := VersionType("old_alpha", true)

  lemma KnownNamesAreLower()
    ensures Lower("release") == "release"
    ensures Lower("snapshot") == "snapshot"
    ensures Lower("old_beta") == "old_beta"
    ensures Lower("old_alpha") == "old_alpha"
  {
  }

  /** The registry holds exactly the four known types, each under its own name. */
  lemma RegistryContents()
    ensures KnownTypes == map["release" := Release, "snapshot" := Snapshot,
                              "old_beta" := OldBeta, "old_alpha" := OldAlpha]
  {
    KnownNamesAreLower();
    var r0: Registry := map[];
    var r1 := Register(r0, "release").0;
    var r2 := Register(r1, "snapshot").0;
    var r3 := Register(r2, "old_beta").0;
    var r4 := Register(r3, "old_alpha").0;
    assert r1 == map["release" := Release];
    assert r4 == map["release" := Release, "snapshot" := Snapshot, "old_beta" := OldBeta, "old_alpha" := OldAlpha];
    assert KnownNames[4..] == [];
    assert RegisterAll(r4, KnownNames[4..]) == r4;
    assert KnownNames[3..] == ["old_alpha"] && KnownNames[3..][1..] == KnownNames[4..];
    assert RegisterAll(r3, KnownNames[3..]) == r4;
    assert KnownNames[2..][0] == "old_beta" && KnownNames[2..][1..] == KnownNames[3..];
    assert RegisterAll(r2, KnownNames[2..]) == r4;
    assert KnownNames[1..][0] == "snapshot" && KnownNames[1..][1..] == KnownNames[2..];
    assert RegisterAll(r1, KnownNames[1..]) == r4;
  }

  /** Every registered type is known and filed under its own name. */
  lemma RegistryIsKnownByName()
    ensures forall k :: k in KnownTypes <==> k in KnownNames
    ensures forall k :: k in KnownTypes ==> KnownTypes[k] == VersionType(k, true)
  {
    RegistryContents();
    KnownNamesListed();
  }

  /** The known names, as a set. */
  lemma KnownNamesListed()
    ensures forall k :: k in KnownNames <==> k in {"release", "snapshot", "old_beta", "old_alpha"}
  {
  }

  /** VersionType.from: the registered type for the lower-cased name, or a new unknown
      type carrying the lower-cased name. */
  function From(name: string): (r: VersionType)
    ensures r.name == Lower(name)
    ensures r.known <==> Lower(name) in KnownNames
    ensures Lower(name) in KnownTypes ==> r == KnownTypes[Lower(name)]
  {
    RegistryIsKnownByName();
    var key := Lower(name);
    if key in KnownTypes then KnownTypes[key] else VersionType(key, false)
  }

  /** VersionType.equals: two version types are equal iff they are the same value. */
  function Equals(a: VersionType, b: VersionType): (r: bool)
    ensures r <==> a == b
  {
    a.known == b.known && a.name == b.name
  }

  /** Lookup ignores case: a name and its lower case find the same type. */
  lemma FromIgnoresCase(s: string)
    ensures From(s) == From(Lower(s))
  {
    LowerIsLower(s);
  }

  /** Looking a type up again by its own name gives it back. */
  lemma FromIsIdempotent(s: string)
    ensures From(From(s).name) == From(s)
  {
    LowerIsLower(s);
  }

  /** A registered type is found whatever the case it is spelt in. */
  lemma FromKnownExamples()
    ensures From("RELEASE") == Release
    ensures From("release") == Release
    ensures From("Old_Beta") == OldBeta
  {
    RegistryContents();
    LowerExamples();
  }

  /** The lower case of the spellings the examples use. */
  lemma LowerExamples()
    ensures Lower("RELEASE") == "release"
    ensures Lower("release") == "release"
    ensures Lower("Old_Beta") == "old_beta"
  {
  }

  /** An unregistered name is kept, lower-cased, and marked unknown. */
  lemma FromUnknownExample()
    ensures From("Pending") == VersionType("pending", false)
  {
    assert Lower("Pending") == "pending";
    KnownNamesListed();
    RegistryIsKnownByName();
  }
}
