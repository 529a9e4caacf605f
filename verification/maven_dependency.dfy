/** Maven coordinates `group:artifactId:version` and their parsing with Java's
    `String.split(":")`. */
module Maven {
  import opened Wrappers

  datatype MavenDependency = MavenDependency(group: string, artifactId: string, version: string)

  /** `s` contains no colon. */
  predicate NoColon(s: string) {
    ':' !in s
  }

  /** Every piece between two colons, empty pieces included; never an empty list. */
  function SplitAll(s: string): (r: seq<string>)
    ensures |r| >= 1
    ensures forall i :: 0 <= i < |r| ==> NoColon(r[i])
    decreases |s|
  {
    if |s| == 0 then [""]
    else
      var rest := SplitAll(s[1..]);
      if s[0] == ':' then [""] + rest
      else [[s[0]] + rest[0]] + rest[1..]
  }

  /** The pieces glued back together with a colon between neighbours. */
  function Join(pieces: seq<string>): (r: string)
    requires |pieces| >= 1
    decreases |pieces|
  {
    if |pieces| == 1 then pieces[0] else pieces[0] + ":" + Join(pieces[1..])
  }

  /** The list without its trailing empty strings. */
  function DropTrailingEmpty(xs: seq<string>): (r: seq<string>)
    ensures |r| <= |xs| && r == xs[..|r|]
    ensures |r| == 0 || r[|r| - 1] != ""
    ensures forall i :: |r| <= i < |xs| ==> xs[i] == ""
    decreases |xs|
  {
    if |xs| > 0 && xs[|xs| - 1] == "" then DropTrailingEmpty(xs[..|xs| - 1]) else xs
  }

  /** `s.split(":")`: a string without a colon comes back whole (so "" gives [""]);
      otherwise it is cut at every colon and trailing empty pieces are dropped. */
  function JavaSplit(s: string): (r: seq<string>)
    ensures forall i :: 0 <= i < |r| ==> NoColon(r[i])
    ensures NoColon(s) ==> r == SplitAll(s) == [s]
    ensures !NoColon(s) ==> && |r| <= |SplitAll(s)| && r == SplitAll(s)[..|r|]
                            && (forall i :: |r| <= i < |SplitAll(s)| ==> SplitAll(s)[i] == "")
                            && (|r| == 0 || r[|r| - 1] != "")
  {
    if NoColon(s) then SplitAllNoColon(s); [s] else DropTrailingEmpty(SplitAll(s))
  }

  // ---------------------------------------------------------------------------
  // Splitting and joining are inverse

  /** Splitting after a colon-free prefix glues the prefix onto the first piece. */
  lemma {:induction false} SplitAllPrefix(a: string, t: string)
    requires NoColon(a)
    ensures SplitAll(a + t) == [a + SplitAll(t)[0]] + SplitAll(t)[1..]
    decreases |a|
  {
    if |a| > 0 {
      assert (a + t)[0] == a[0] && (a + t)[1..] == a[1..] + t;
      SplitAllPrefix(a[1..], t);
      var rest := SplitAll(a[1..] + t);
      assert rest[0] == a[1..] + SplitAll(t)[0] && rest[1..] == SplitAll(t)[1..];
      assert a == [a[0]] + a[1..];
      assert [a[0]] + rest[0] == a + SplitAll(t)[0];
    } else {
      assert a + t == t;
      assert a + SplitAll(t)[0] == SplitAll(t)[0];
    }
  }

  /** Splitting a colon-free string gives that string alone. */
  lemma SplitAllNoColon(a: string)
    requires NoColon(a)
    ensures SplitAll(a) == [a]
  {
    SplitAllPrefix(a, "");
    assert a + "" == a;
  }

  /** Splitting `a:b` with a colon-free `a` gives `a` followed by the pieces of `b`. */
  lemma SplitAllCons(a: string, b: string)
    requires NoColon(a)
    ensures SplitAll(a + ":" + b) == [a] + SplitAll(b)
  {
    SplitAllPrefix(a, ":" + b);
    assert a + ":" + b == a + (":" + b);
    assert (":" + b)[0] == ':' && (":" + b)[1..] == b;
    assert SplitAll(":" + b) == [""] + SplitAll(b);
    assert a + "" == a;
  }

  /** Joining colon-free pieces and splitting again gives the pieces back. */
  lemma {:induction false} SplitJoin(pieces: seq<string>)
    requires |pieces| >= 1
    requires forall i :: 0 <= i < |pieces| ==> NoColon(pieces[i])
    ensures SplitAll(Join(pieces)) == pieces
    decreases |pieces|
  {
    if |pieces| == 1 {
      SplitAllNoColon(pieces[0]);
    } else {
      SplitJoin(pieces[1..]);
      SplitAllCons(pieces[0], Join(pieces[1..]));
    }
  }

  /** Splitting a string and joining the pieces gives the string back. */
  lemma {:induction false} JoinSplit(s: string)
    ensures Join(SplitAll(s)) == s
    decreases |s|
  {
    if |s| > 0 {
      JoinSplit(s[1..]);
      var rest := SplitAll(s[1..]);
      if s[0] == ':' {
        assert s == [':'] + s[1..];
      } else {
        var r := SplitAll(s);
        assert r == [[s[0]] + rest[0]] + rest[1..];
        if |rest| == 1 {
          assert s == [s[0]] + s[1..];
        } else {
          assert r[1..] == rest[1..];
          assert Join(rest) == rest[0] + ":" + Join(rest[1..]);
          assert s == [s[0]] + s[1..];
        }
      }
    }
  }

  /** Joining pieces spells out the first, then the rest. */
  lemma JoinFirst(pieces: seq<string>)
    requires |pieces| >= 1
    ensures Join(pieces) == pieces[0] + JoinTail(pieces[1..])
  {
    if |pieces| == 1 {
      assert pieces[0] + "" == pieces[0];
    }
  }

  /** Joining at least three pieces spells out the first three, then the rest. */
  lemma JoinFirstThree(pieces: seq<string>)
    requires |pieces| >= 3
    ensures Join(pieces) == pieces[0] + ":" + pieces[1] + ":" + pieces[2] + JoinTail(pieces[3..])
  {
    var p1 := pieces[1..];
    var p2 := p1[1..];
    assert p2 == pieces[2..] && p2[1..] == pieces[3..];
    var x, y, z, w := pieces[0], pieces[1], pieces[2], JoinTail(pieces[3..]);
    JoinFirst(pieces);
    JoinFirst(p1);
    JoinFirst(p2);
    assert Join(pieces) == x + (":" + (y + (":" + (z + w))));
    Regroup(x, y, z, w);
  }

  /** Concatenation regrouped from the right-nested form `Join` builds. */
  lemma Regroup(x: string, y: string, z: string, w: string)
    ensures x + (":" + (y + (":" + (z + w)))) == x + ":" + y + ":" + z + w
  {
  }

  /** What follows the last of some pieces when more are joined on: nothing, or a
      colon and the rest. */
  function JoinTail(rest: seq<string>): string {
    if |rest| == 0 then "" else ":" + Join(rest)
  }

  // ---------------------------------------------------------------------------
  // MavenDependency

  /** MavenDependency.toString: the three fields joined by colons, which split back
      into the three fields when none of them holds a colon. */
  function ToString(d: MavenDependency): (r: string)
    ensures r == Join([d.group, d.artifactId, d.version])
    ensures NoColon(d.group) && NoColon(d.artifactId) && NoColon(d.version) ==>
              SplitAll(r) == [d.group, d.artifactId, d.version]
  {
    var pieces := [d.group, d.artifactId, d.version];
    var s := d.group + ":" + d.artifactId + ":" + d.version;
    JoinFirstThree(pieces);
    assert pieces[3..] == [] && s + "" == s;
    if NoColon(d.group) && NoColon(d.artifactId) && NoColon(d.version) then SplitJoin(pieces); s else s
  }

  /** MavenDependency.parse: the first three pieces of the Java split, or `None`
      (Java's `null`) when the split gives fewer than three. */
  function Parse(notation: string): (r: Option<MavenDependency>)
    ensures r.None? <==> |JavaSplit(notation)| < 3
    ensures r.Some? ==> NoColon(r.value.group) && NoColon(r.value.artifactId) && NoColon(r.value.version)
    ensures r.Some? ==> r.value.group == SplitAll(notation)[0] && r.value.artifactId == SplitAll(notation)[1]
                        && r.value.version == SplitAll(notation)[2]
  {
    var parts := JavaSplit(notation);
    if |parts| < 3 then None else Some(MavenDependency(parts[0], parts[1], parts[2]))
  }

  /** MavenDependency.equals: field-by-field comparison, which is value equality. */
  function Equals(a: MavenDependency, b: MavenDependency): (r: bool)
    ensures r <==> a == b
  {
    a.group == b.group && a.artifactId == b.artifactId && a.version == b.version
  }

  /** A parsed dependency is literally the start of the notation: its three fields
      joined by colons, followed by nothing or by a further colon-separated tail. */
  lemma ParsedIsPrefix(notation: string)
    requires Parse(notation).Some?
    ensures var d := Parse(notation).value;
            exists tail :: notation == ToString(d) + tail && (tail == "" || tail[0] == ':')
  {
    var d := Parse(notation).value;
    var all := SplitAll(notation);
    JoinSplit(notation);
    JoinFirstThree(all);
    assert notation == ToString(d) + JoinTail(all[3..]);
  }

  /** Printing and parsing again gives the dependency back, as long as no field holds
      a colon and the version is not empty (an empty last piece would be dropped). */
  lemma ParseToString(d: MavenDependency)
    requires NoColon(d.group) && NoColon(d.artifactId) && NoColon(d.version)
    requires d.version != ""
    ensures Parse(ToString(d)) == Some(d)
  {
    var pieces := [d.group, d.artifactId, d.version];
    JoinFirstThree(pieces);
    assert pieces[3..] == [];
    assert Join(pieces) == ToString(d) + "" == ToString(d);
    SplitJoin(pieces);
    assert !NoColon(ToString(d)) by {
      assert ToString(d)[|d.group|] == ':';
    }
    assert DropTrailingEmpty(pieces) == pieces;
    assert JavaSplit(ToString(d)) == pieces;
  }

  /** An empty version does not survive the round trip: `a:b:` splits into two pieces. */
  lemma EmptyVersionIsLost()
    ensures Parse(ToString(MavenDependency("a", "b", ""))) == None
  {
    var ps := ["a", "b", ""];
    assert Join(ps) == "a:b:" == ToString(MavenDependency("a", "b", ""));
    SplitJoin(ps);
    assert ps[..2] == ["a", "b"];
    assert DropTrailingEmpty(ps) == ["a", "b"];
  }

  /** The coordinate of Fabric's loader parses into its three parts. */
  lemma ParseFabricLoader()
    ensures Parse("net.fabricmc:fabric-loader:0.16.0") == Some(MavenDependency("net.fabricmc", "fabric-loader", "0.16.0"))
  {
    var d := MavenDependency("net.fabricmc", "fabric-loader", "0.16.0");
    NoColonLiterals();
    SpellFabricLoader();
    ParseToString(d);
  }

  /** The three parts of Fabric's loader coordinate hold no colon. */
  lemma NoColonLiterals()
    ensures NoColon("net.fabricmc") && NoColon("fabric-loader") && NoColon("0.16.0")
  {
  }

  /** Fabric's loader coordinate, printed. */
  lemma SpellFabricLoader()
    ensures "net.fabricmc" + ":" + "fabric-loader" + ":" + "0.16.0" == "net.fabricmc:fabric-loader:0.16.0"
  {
  }

  /** An interior empty piece is kept: `a::c` has an empty artifactId. */
  lemma ParseKeepsInteriorEmpty()
    ensures Parse("a::c") == Some(MavenDependency("a", "", "c"))
  {
    var d := MavenDependency("a", "", "c");
    assert ToString(d) == "a::c";
    ParseToString(d);
  }

  /** Two pieces are too few. */
  lemma ParseTooFewPieces()
    ensures Parse("a:b") == None
  {
  }

  /** Pieces after the third are ignored. */
  lemma ParseIgnoresExtraPieces()
    ensures Parse("a:b:c:d") == Some(MavenDependency("a", "b", "c"))
  {
    var ps := ["a", "b", "c", "d"];
    JoinFirstThree(ps);
    assert ps[3..] == ["d"];
    assert Join(ps) == "a:b:c:d";
    SplitJoin(ps);
    assert "a:b:c:d"[1] == ':';
  }
}
